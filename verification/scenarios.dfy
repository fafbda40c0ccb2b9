/** Worked inputs for the catalog scorer. */
module Scenarios {
  import opened Wrappers
  import opened Seqs
  import opened Text
  import opened Catalog
  import opened Matcher

  /** No tag of `tags` contains a term whose lower-case form holds a character that no
      lower-cased tag holds. */
  lemma {:induction false} NoTagContains(tags: seq<string>, term: string, c: char)
    requires c in Lower(term)
    requires forall i, j :: 0 <= i < |tags| && 0 <= j < |tags[i]| ==> LowerChar(tags[i][j]) != c
    ensures !SomeTagContains(tags, term)
  {
    forall i | 0 <= i < |tags|
      ensures !Contains(Lower(tags[i]), Lower(term))
    {
      MissingCharNotContained(Lower(tags[i]), Lower(term), c);
    }
  }

  /** With a single skill and nothing else, a project scores 4 when one of its tags
      contains the skill and 0 otherwise. */
  lemma {:induction false} SingleSkillScore(skill: string, project: Project)
    ensures Score(Input([skill], [], []), project).matchScore ==
              if SomeTagContains(project.tags, skill) then 4 else 0
  {
    var input := Input([skill], [], []);
    assert TermMatches(project.tags, input.skills) == if SomeTagContains(project.tags, skill) then [skill] else [];
  }

  lemma {:induction false} PythonInRankerAndThreat()
    ensures Score(Input(["Python"], [], []), ResumeRanker).matchScore == 4
    ensures Score(Input(["Python"], [], []), ThreatDetection).matchScore == 4
  {
    assert OccursAt(Lower(ResumeRanker.tags[0]), Lower("Python"), 0);
    assert OccursAt(Lower(ThreatDetection.tags[1]), Lower("Python"), 0);
    SingleSkillScore("Python", ResumeRanker);
    SingleSkillScore("Python", ThreatDetection);
  }

  lemma {:induction false} PythonNowhereElse()
    ensures Score(Input(["Python"], [], []), CitationVisualizer).matchScore == 0
    ensures Score(Input(["Python"], [], []), PaperRecommender).matchScore == 0
    ensures Score(Input(["Python"], [], []), LearningPathGenerator).matchScore == 0
  {
    assert Lower("Python")[1] == 'y';
    NoTagContains(CitationVisualizer.tags, "Python", 'y');
    NoTagContains(PaperRecommender.tags, "Python", 'y');
    NoTagContains(LearningPathGenerator.tags, "Python", 'y');
    SingleSkillScore("Python", CitationVisualizer);
    SingleSkillScore("Python", PaperRecommender);
    SingleSkillScore("Python", LearningPathGenerator);
  }

  lemma {:induction false} WithScoreCons(x: Suggestion, s: seq<Suggestion>, k: int)
    ensures WithScore([x] + s, k) == (if x.matchScore == k then [x] else []) + WithScore(s, k)
  {
    assert ([x] + s)[1..] == s;
  }

  /** A caller whose only skill is Python is offered the two Python projects, each
      scoring 4, in catalog order. */
  lemma {:induction false} PythonSkillOnly()
    ensures var input := Input(["Python"], [], []);
            SuggestProjects(input) == [Score(input, ResumeRanker), Score(input, ThreatDetection)]
    ensures SuggestProjects(Input(["Python"], [], []))[0].matchScore == 4
    ensures SuggestProjects(Input(["Python"], [], []))[1].matchScore == 4
  {
    var input := Input(["Python"], [], []);
    var scored := ScoreAll(ProjectDatabase, input);
    PythonInRankerAndThreat();
    PythonNowhereElse();
    assert scored[0] == Score(input, ResumeRanker) && scored[2] == Score(input, ThreatDetection);
    assert scored[1] == Score(input, CitationVisualizer) && scored[3] == Score(input, PaperRecommender);
    assert scored[4] == Score(input, LearningPathGenerator);
    TwoOfFive(scored);
  }

  /** Of five suggestions where only the first and third score, and equally, the
      ranking keeps those two in order. */
  lemma {:induction false} TwoOfFive(s: seq<Suggestion>)
    requires |s| == 5 && s[0].matchScore == s[2].matchScore > 0
    requires s[1].matchScore == 0 && s[3].matchScore == 0 && s[4].matchScore == 0
    ensures Rank(s) == [s[0], s[2]]
  {
    var expected := [s[0], s[2]];
    forall k | k > 0
      ensures WithScore(expected, k) == WithScore(s, k)
    {
      assert s == [s[0]] + ([s[1]] + ([s[2]] + ([s[3]] + ([s[4]] + []))));
      WithScoreCons(s[0], [s[1]] + ([s[2]] + ([s[3]] + ([s[4]] + []))), k);
      WithScoreCons(s[1], [s[2]] + ([s[3]] + ([s[4]] + [])), k);
      WithScoreCons(s[2], [s[3]] + ([s[4]] + []), k);
      WithScoreCons(s[3], [s[4]] + [], k);
      WithScoreCons(s[4], [], k);
      assert expected == [expected[0]] + ([expected[1]] + []);
      WithScoreCons(expected[0], [expected[1]] + [], k);
      WithScoreCons(expected[1], [], k);
    }
    RankUnique(s, expected);
  }

  /** No tag of `tags` contains a term whose lower-case form holds two adjacent
      characters that never stand side by side in a lower-cased tag. */
  lemma {:induction false} NoTagContainsPair(tags: seq<string>, term: string, k: nat, c: char, d: char)
    requires k + 1 < |Lower(term)| && Lower(term)[k] == c && Lower(term)[k + 1] == d
    requires forall i, j :: 0 <= i < |tags| && 0 <= j && j + 1 < |tags[i]| ==>
               LowerChar(tags[i][j]) != c || LowerChar(tags[i][j + 1]) != d
    ensures !SomeTagContains(tags, term)
  {
    var needle := Lower(term);
    forall i | 0 <= i < |tags|
      ensures !Contains(Lower(tags[i]), needle)
    {
      var hay := Lower(tags[i]);
      forall m | 0 <= m && m + |needle| <= |hay|
        ensures !OccursAt(hay, needle, m)
      {
        assert hay[m..m + |needle|][k] == hay[m + k];
        assert hay[m..m + |needle|][k + 1] == hay[m + k + 1];
      }
    }
  }

  /** With a single interest and nothing else, a project scores 3 when one of its
      tags contains the interest and 0 otherwise. */
  lemma {:induction false} SingleInterestScore(interest: string, project: Project)
    ensures Score(Input([], [interest], []), project).matchScore ==
              if SomeTagContains(project.tags, interest) then 3 else 0
  {
    var input := Input([], [interest], []);
    assert TermMatches(project.tags, input.interests) ==
             if SomeTagContains(project.tags, interest) then [interest] else [];
  }

  lemma {:induction false} NlpInThreeProjects()
    ensures Score(Input([], ["nlp"], []), ResumeRanker).matchScore == 3
    ensures Score(Input([], ["nlp"], []), PaperRecommender).matchScore == 3
    ensures Score(Input([], ["nlp"], []), LearningPathGenerator).matchScore == 3
  {
    assert Lower("nlp") == "nlp" && Lower("NLP") == "nlp";
    assert OccursAt(Lower(ResumeRanker.tags[1]), Lower("nlp"), 0);
    assert OccursAt(Lower(PaperRecommender.tags[0]), Lower("nlp"), 0);
    assert OccursAt(Lower(LearningPathGenerator.tags[3]), Lower("nlp"), 0);
    SingleInterestScore("nlp", ResumeRanker);
    SingleInterestScore("nlp", PaperRecommender);
    SingleInterestScore("nlp", LearningPathGenerator);
  }

  lemma {:induction false} NlpNowhereElse()
    ensures Score(Input([], ["nlp"], []), CitationVisualizer).matchScore == 0
    ensures Score(Input([], ["nlp"], []), ThreatDetection).matchScore == 0
  {
    assert Lower("nlp") == "nlp";
    NoTagContains(CitationVisualizer.tags, "nlp", 'p');
    NoTagContainsPair(ThreatDetection.tags, "nlp", 0, 'n', 'l');
    SingleInterestScore("nlp", CitationVisualizer);
    SingleInterestScore("nlp", ThreatDetection);
  }

  /** A caller whose only interest is "nlp" is offered the three projects with an
      NLP tag, each scoring 3, in catalog order. */
  lemma {:induction false} NlpInterestOnly()
    ensures var input := Input([], ["nlp"], []);
            SuggestProjects(input) ==
              [Score(input, ResumeRanker), Score(input, PaperRecommender), Score(input, LearningPathGenerator)]
    ensures SuggestProjects(Input([], ["nlp"], []))[0].matchScore == 3
    ensures SuggestProjects(Input([], ["nlp"], []))[1].matchScore == 3
    ensures SuggestProjects(Input([], ["nlp"], []))[2].matchScore == 3
  {
    var input := Input([], ["nlp"], []);
    var scored := NlpScored();
    ThreeOfFive(scored);
    assert SuggestProjects(input) == Rank(scored);
  }

  /** The catalog scored against the single interest "nlp". */
  lemma {:induction false} NlpScored() returns (scored: seq<Suggestion>)
    ensures var input := Input([], ["nlp"], []);
            && scored == ScoreAll(ProjectDatabase, input) && |scored| == 5
            && scored[0] == Score(input, ResumeRanker) && scored[3] == Score(input, PaperRecommender)
            && scored[4] == Score(input, LearningPathGenerator)
    ensures scored[0].matchScore == scored[3].matchScore == scored[4].matchScore == 3
    ensures scored[1].matchScore == 0 && scored[2].matchScore == 0
  {
    var input := Input([], ["nlp"], []);
    scored := ScoreAll(ProjectDatabase, input);
    NlpInThreeProjects();
    NlpNowhereElse();
    assert scored[1] == Score(input, CitationVisualizer) && scored[2] == Score(input, ThreatDetection);
  }

  /** Of five suggestions where only the first, fourth and fifth score, and equally,
      the ranking keeps those three in order. */
  lemma {:induction false} ThreeOfFive(s: seq<Suggestion>)
    requires |s| == 5 && s[0].matchScore == s[3].matchScore == s[4].matchScore > 0
    requires s[1].matchScore == 0 && s[2].matchScore == 0
    ensures Rank(s) == [s[0], s[3], s[4]]
  {
    var expected := [s[0], s[3], s[4]];
    forall k | k > 0
      ensures WithScore(expected, k) == WithScore(s, k)
    {
      assert s == [s[0]] + ([s[1]] + ([s[2]] + ([s[3]] + ([s[4]] + []))));
      WithScoreCons(s[0], [s[1]] + ([s[2]] + ([s[3]] + ([s[4]] + []))), k);
      WithScoreCons(s[1], [s[2]] + ([s[3]] + ([s[4]] + [])), k);
      WithScoreCons(s[2], [s[3]] + ([s[4]] + []), k);
      WithScoreCons(s[3], [s[4]] + [], k);
      WithScoreCons(s[4], [], k);
      assert expected == [expected[0]] + ([expected[1]] + ([expected[2]] + []));
      WithScoreCons(expected[0], [expected[1]] + ([expected[2]] + []), k);
      WithScoreCons(expected[1], [expected[2]] + [], k);
      WithScoreCons(expected[2], [], k);
    }
    RankUnique(s, expected);
  }

  /** A Python skill and a Machine Learning interest against a project tagged
      Python and NLP: only the skill matches, so the project is suggested with
      score 4. */
  lemma {:induction false} SkillButNotInterest()
    ensures var project := Project("Resume Ranker", "Ranks resumes.", ["Python", "NLP"]);
            var input := Input(["Python"], ["Machine Learning"], []);
            && Score(input, project).matchScore == 4
            && Suggest([project], input) == [Score(input, project)]
  {
    var project := Project("Resume Ranker", "Ranks resumes.", ["Python", "NLP"]);
    var input := Input(["Python"], ["Machine Learning"], []);
    PythonButNotLearning(project, input);
    var scored := ScoreAll([project], input);
    assert scored == [Score(input, project)];
    SuggestKeepsSortedOrder([project], input);
  }

  /** The three match lists of the Python-but-not-learning example. */
  lemma {:induction false} PythonButNotLearning(project: Project, input: Input)
    requires project == Project("Resume Ranker", "Ranks resumes.", ["Python", "NLP"])
    requires input == Input(["Python"], ["Machine Learning"], [])
    ensures TermMatches(project.tags, input.skills) == ["Python"]
    ensures TermMatches(project.tags, input.interests) == []
    ensures PublicationMatches(project.tags, input.publications) == []
  {
    assert OccursAt(Lower(project.tags[0]), Lower("Python"), 0);
    assert Lower("Machine Learning")[0] == 'm';
    NoTagContains(project.tags, "Machine Learning", 'm');
  }

  /** A publication listed twice whose title contains a tag counts twice: the
      score is two publication weights. */
  lemma {:induction false} RepeatedPublicationCountsTwice(project: Project, pub: Publication)
    requires TitleContainsSomeTag(project.tags, pub.title)
    ensures Score(Input([], [], [pub, pub]), project).matchScore == 2 * PublicationWeight
  {
    var input := Input([], [], [pub, pub]);
    var r := PublicationMatches(project.tags, input.publications);
    MatchCounts(project.tags, [], input.publications);
    assert multiset(input.publications) == multiset{pub, pub};
    assert multiset(r) == multiset{pub, pub} by {
      forall q
        ensures multiset(r)[q] == multiset{pub, pub}[q]
      {
      }
    }
    assert |r| == |multiset(r)|;
    assert TermMatches(project.tags, []) == [];
  }

  /** When the scored catalog is already in score order and every entry scores,
      the suggestions are the scored catalog itself; in particular entries of
      equal score come out in catalog order. */
  lemma {:induction false} SuggestKeepsSortedOrder(catalog: seq<Project>, input: Input)
    requires forall i :: 0 <= i < |catalog| ==> Score(input, catalog[i]).matchScore > 0
    requires forall i, j :: 0 <= i < j < |catalog| ==>
               Score(input, catalog[i]).matchScore >= Score(input, catalog[j]).matchScore
    ensures Suggest(catalog, input) == ScoreAll(catalog, input)
  {
    var scored := ScoreAll(catalog, input);
    RankUnique(scored, scored);
  }

  /** Two entries with the same positive score keep their catalog order. */
  lemma {:induction false} EqualScoresKeepCatalogOrder(first: Project, second: Project, input: Input)
    requires Score(input, first).matchScore == Score(input, second).matchScore > 0
    ensures Suggest([first, second], input) == [Score(input, first), Score(input, second)]
  {
    var a := Score(input, first);
    var b := Score(input, second);
    var scored := ScoreAll([first, second], input);
    assert scored == [a, b];
    TiesKeepOrder(a, b);
  }

  /** Ranking two suggestions of equal positive score leaves them as they are. */
  lemma {:induction false} TiesKeepOrder(a: Suggestion, b: Suggestion)
    requires a.matchScore == b.matchScore > 0
    ensures Rank([a, b]) == [a, b]
  {
    RankUnique([a, b], [a, b]);
  }
}
