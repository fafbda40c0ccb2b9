/** The recommendation scorer of lib/suggest/matcher.ts: every catalog entry is
    scored by keyword overlap with the caller's skills, interests and publication
    titles; entries scoring zero are dropped and the rest are ranked by score
    with a stable sort. */
module Matcher {
  import opened Seqs
  import opened Text
  import opened Catalog

  datatype Publication = Publication(title: string)

  /** What the caller knows about the user: resume skills, scholar interests and
      scholar publications. */
  datatype Input = Input(skills: seq<string>, interests: seq<string>, publications: seq<Publication>)

  /** A catalog entry with its score and the caller's terms that matched it. */
  datatype Suggestion = Suggestion(
    title: string,
    description: string,
    tags: seq<string>,
    matchScore: int,
    relevantSkills: seq<string>,
    researchAreas: seq<string>)

  const SkillWeight := 4
  const InterestWeight := 3
  const PublicationWeight := 2

  /** `tags.some(tag => tag.toLowerCase().includes(term.toLowerCase()))`. */
  predicate SomeTagContains(tags: seq<string>, term: string)
  {
    exists i :: 0 <= i < |tags| && Contains(Lower(tags[i]), Lower(term))
  }

  /** `tags.some(tag => title.toLowerCase().includes(tag.toLowerCase()))`: the
      containment runs the other way round. */
  predicate TitleContainsSomeTag(tags: seq<string>, title: string)
  {
    exists i :: 0 <= i < |tags| && Contains(Lower(title), Lower(tags[i]))
  }

  /** The caller's terms (skills or interests) some tag of the project contains. */
  function TermMatches(tags: seq<string>, terms: seq<string>): (r: seq<string>)
    ensures IsSubsequence(r, terms)
    ensures forall s :: s in r <==> s in terms && SomeTagContains(tags, s)
  {
    var matches := (term: string) => SomeTagContains(tags, term);
    forall s
      ensures s in Filter(terms, matches) <==> s in terms && SomeTagContains(tags, s)
    {
      FilterMembership(terms, matches, s);
    }
    Filter(terms, matches)
  }

  /** The publications whose title contains some tag of the project. */
  function PublicationMatches(tags: seq<string>, publications: seq<Publication>): (r: seq<Publication>)
    ensures IsSubsequence(r, publications)
    ensures forall p :: p in r <==> p in publications && TitleContainsSomeTag(tags, p.title)
  {
    var matches := (pub: Publication) => TitleContainsSomeTag(tags, pub.title);
    forall p
      ensures p in Filter(publications, matches) <==> p in publications && TitleContainsSomeTag(tags, p.title)
    {
      FilterMembership(publications, matches, p);
    }
    Filter(publications, matches)
  }

  /** Both match lists are filters: a matching term or publication is kept as
      often as the caller lists it, so two copies of one matching publication
      add its weight twice to the score. */
  lemma {:induction false} MatchCounts(tags: seq<string>, terms: seq<string>, publications: seq<Publication>)
    ensures forall s :: multiset(TermMatches(tags, terms))[s] ==
              if SomeTagContains(tags, s) then multiset(terms)[s] else 0
    ensures forall p :: multiset(PublicationMatches(tags, publications))[p] ==
              if TitleContainsSomeTag(tags, p.title) then multiset(publications)[p] else 0
  {
    FilterMultiset(terms, (term: string) => SomeTagContains(tags, term));
    FilterMultiset(publications, (pub: Publication) => TitleContainsSomeTag(tags, pub.title));
  }

  /** The per-project step of `suggestProjects`: the project's fields, its weighted
      score and the matched skills and interests. */
  function Score(input: Input, project: Project): (r: Suggestion)
    ensures r.title == project.title && r.description == project.description && r.tags == project.tags
    ensures r.matchScore == SkillWeight * |r.relevantSkills| + InterestWeight * |r.researchAreas|
                            + PublicationWeight * |PublicationMatches(project.tags, input.publications)|
    ensures 0 <= r.matchScore <= SkillWeight * |input.skills| + InterestWeight * |input.interests|
                                 + PublicationWeight * |input.publications|
  {
    var skillMatch := TermMatches(project.tags, input.skills);
    var interestMatch := TermMatches(project.tags, input.interests);
    var pubMatch := PublicationMatches(project.tags, input.publications);
    Suggestion(
      project.title, project.description, project.tags,
      SkillWeight * |skillMatch| + InterestWeight * |interestMatch| + PublicationWeight * |pubMatch|,
      skillMatch, interestMatch)
  }

  /** `relevantSkills` and `researchAreas` are the caller's own skills and interests
      that some tag contains: in the caller's order, with repetitions kept. */
  lemma {:induction false} ScoreMatchLists(input: Input, project: Project)
    ensures var r := Score(input, project);
      && IsSubsequence(r.relevantSkills, input.skills)
      && IsSubsequence(r.researchAreas, input.interests)
      && (forall s :: s in r.relevantSkills <==> s in input.skills && SomeTagContains(project.tags, s))
      && (forall s :: s in r.researchAreas <==> s in input.interests && SomeTagContains(project.tags, s))
      && (forall s :: multiset(r.relevantSkills)[s] ==
            if SomeTagContains(project.tags, s) then multiset(input.skills)[s] else 0)
      && (forall s :: multiset(r.researchAreas)[s] ==
            if SomeTagContains(project.tags, s) then multiset(input.interests)[s] else 0)
  {
    var matches := (term: string) => SomeTagContains(project.tags, term);
    FilterMultiset(input.skills, matches);
    FilterMultiset(input.interests, matches);
    forall s
      ensures s in TermMatches(project.tags, input.skills) <==> s in input.skills && matches(s)
      ensures s in TermMatches(project.tags, input.interests) <==> s in input.interests && matches(s)
    {
      FilterMembership(input.skills, matches, s);
      FilterMembership(input.interests, matches, s);
    }
  }

  /** A project scores above zero exactly when one of its three match lists is
      non-empty: some skill or interest is contained in a tag, or some publication
      title contains a tag. */
  lemma {:induction false} ScorePositiveIff(input: Input, project: Project)
    ensures Score(input, project).matchScore > 0 <==>
      || (exists i :: 0 <= i < |input.skills| && SomeTagContains(project.tags, input.skills[i]))
      || (exists i :: 0 <= i < |input.interests| && SomeTagContains(project.tags, input.interests[i]))
      || (exists i :: 0 <= i < |input.publications| &&
            TitleContainsSomeTag(project.tags, input.publications[i].title))
  {
    FilterEmpty(input.skills, (term: string) => SomeTagContains(project.tags, term));
    FilterEmpty(input.interests, (term: string) => SomeTagContains(project.tags, term));
    FilterEmpty(input.publications, (pub: Publication) => TitleContainsSomeTag(project.tags, pub.title));
  }

  // ---------------------------------------------------------------- ranking

  /** Non-increasing in `matchScore`. */
  predicate SortedByScore(s: seq<Suggestion>)
  {
    forall i, j :: 0 <= i < j < |s| ==> s[i].matchScore >= s[j].matchScore
  }

  /** The suggestions with score `k`, in their order in `s`. */
  function WithScore(s: seq<Suggestion>, k: int): seq<Suggestion>
  {
    Filter(s, (x: Suggestion) => x.matchScore == k)
  }

  /** Places `x` in front of the first element it does not score below, so it
      stays ahead of equal scores that come after it. */
  function Insert(x: Suggestion, s: seq<Suggestion>): (r: seq<Suggestion>)
    requires SortedByScore(s)
    ensures SortedByScore(r)
    ensures multiset(r) == multiset(s) + multiset{x}
  {
    if |s| == 0 || x.matchScore >= s[0].matchScore then
      [x] + s
    else
      var rest := Insert(x, s[1..]);
      assert s == [s[0]] + s[1..];
      InsertHeadBound(s[0], x, s[1..], rest);
      [s[0]] + rest
  }

  lemma {:induction false} InsertHeadBound(h: Suggestion, x: Suggestion, s: seq<Suggestion>, rest: seq<Suggestion>)
    requires SortedByScore([h] + s) && x.matchScore < h.matchScore
    requires SortedByScore(rest) && multiset(rest) == multiset(s) + multiset{x}
    ensures SortedByScore([h] + rest)
  {
    forall j | 0 <= j < |rest|
      ensures rest[j].matchScore <= h.matchScore
    {
      assert rest[j] in multiset(rest);
      assert rest[j] in multiset(s) + multiset{x};
      if rest[j] != x {
        assert rest[j] in multiset(s);
        assert rest[j] in s;
        var i :| 0 <= i < |s| && s[i] == rest[j];
        assert ([h] + s)[i + 1] == s[i] && ([h] + s)[0] == h;
      }
    }
    var r := [h] + rest;
    forall i, j | 0 <= i < j < |r|
      ensures r[i].matchScore >= r[j].matchScore
    {
      if i > 0 {
        assert r[i] == rest[i - 1] && r[j] == rest[j - 1];
      } else {
        assert r[j] == rest[j - 1];
      }
    }
  }

  /** `Array.prototype.sort` with comparator `(a, b) => b.matchScore - a.matchScore`:
      a stable sort into non-increasing score order. */
  function SortByScore(s: seq<Suggestion>): (r: seq<Suggestion>)
    ensures SortedByScore(r)
    ensures multiset(r) == multiset(s)
  {
    if |s| == 0 then []
    else
      assert s == [s[0]] + s[1..];
      Insert(s[0], SortByScore(s[1..]))
  }

  /** Filtering by one score sees `x` exactly where it would sit in front of `s`. */
  lemma {:induction false} InsertStable(x: Suggestion, s: seq<Suggestion>, k: int)
    requires SortedByScore(s)
    ensures WithScore(Insert(x, s), k) == WithScore([x] + s, k)
    decreases |s|
  {
    var p := (y: Suggestion) => y.matchScore == k;
    if |s| == 0 || x.matchScore >= s[0].matchScore {
    } else {
      var rest := Insert(x, s[1..]);
      InsertStable(x, s[1..], k);
      FilterAppend([s[0]], rest, p);
      FilterAppend([x], s[1..], p);
      FilterAppend([s[0]], s[1..], p);
      assert s == [s[0]] + s[1..];
      FilterAppend([x], s, p);
    }
  }

  /** The sort is stable: for every score, the suggestions with that score keep
      their relative order. */
  lemma {:induction false} SortStable(s: seq<Suggestion>, k: int)
    ensures WithScore(SortByScore(s), k) == WithScore(s, k)
    decreases |s|
  {
    if |s| > 0 {
      var p := (y: Suggestion) => y.matchScore == k;
      SortStable(s[1..], k);
      InsertStable(s[0], SortByScore(s[1..]), k);
      FilterAppend([s[0]], SortByScore(s[1..]), p);
      FilterAppend([s[0]], s[1..], p);
      assert s == [s[0]] + s[1..];
    }
  }

  /** Every catalog entry scored, in catalog order. */
  function ScoreAll(catalog: seq<Project>, input: Input): (r: seq<Suggestion>)
    ensures |r| == |catalog|
    ensures forall i :: 0 <= i < |r| ==> r[i] == Score(input, catalog[i])
  {
    seq(|catalog|, i requires 0 <= i < |catalog| => Score(input, catalog[i]))
  }

  /** The ranking half of `suggestProjects`: `.filter(p => p.matchScore > 0)`
      followed by the stable sort. The result holds exactly the entries scoring
      above zero, with their multiplicities, in non-increasing score order, and
      entries with equal score keep their relative order. */
  function Rank(scored: seq<Suggestion>): (r: seq<Suggestion>)
    ensures forall i :: 0 <= i < |r| ==> r[i].matchScore > 0
    ensures SortedByScore(r)
    ensures |r| <= |scored|
    ensures forall x :: x in r <==> x in scored && x.matchScore > 0
    ensures forall x :: multiset(r)[x] == if x.matchScore > 0 then multiset(scored)[x] else 0
    ensures forall k :: k > 0 ==> WithScore(r, k) == WithScore(scored, k)
  {
    var positive := (x: Suggestion) => x.matchScore > 0;
    var kept := Filter(scored, positive);
    var r := SortByScore(kept);
    RankProperties(scored, kept, r);
    r
  }

  lemma {:induction false} RankProperties(scored: seq<Suggestion>, kept: seq<Suggestion>, r: seq<Suggestion>)
    requires kept == Filter(scored, (x: Suggestion) => x.matchScore > 0)
    requires r == SortByScore(kept)
    ensures forall i :: 0 <= i < |r| ==> r[i].matchScore > 0
    ensures |r| <= |scored|
    ensures forall x :: x in r <==> x in scored && x.matchScore > 0
    ensures forall x :: multiset(r)[x] == if x.matchScore > 0 then multiset(scored)[x] else 0
    ensures forall k :: k > 0 ==> WithScore(r, k) == WithScore(scored, k)
  {
    var positive := (x: Suggestion) => x.matchScore > 0;
    FilterMultiset(scored, positive);
    assert forall x :: x in r <==> x in kept by {
      forall x ensures x in r <==> x in kept {
        assert x in r <==> x in multiset(r);
        assert x in kept <==> x in multiset(kept);
      }
    }
    forall x
      ensures x in kept <==> x in scored && x.matchScore > 0
    {
      FilterMembership(scored, positive, x);
    }
    forall i | 0 <= i < |r|
      ensures r[i].matchScore > 0
    {
      assert r[i] in kept;
    }
    assert |r| == |kept| by {
      assert |multiset(r)| == |multiset(kept)|;
    }
    forall k | k > 0
      ensures WithScore(r, k) == WithScore(scored, k)
    {
      SortStable(kept, k);
      FilterOfFilter(scored, k);
    }
  }

  /** The ranking is the only arrangement with its three properties: any sequence
      of positive scores, sorted by score, whose suggestions of each score are
      those of the input in their input order, is the ranking itself. */
  lemma {:induction false} RankUnique(scored: seq<Suggestion>, r: seq<Suggestion>)
    requires forall i :: 0 <= i < |r| ==> r[i].matchScore > 0
    requires SortedByScore(r)
    requires forall k :: k > 0 ==> WithScore(r, k) == WithScore(scored, k)
    ensures r == Rank(scored)
  {
    var ranked := Rank(scored);
    forall k
      ensures WithScore(r, k) == WithScore(ranked, k)
    {
      if k <= 0 {
        FilterEmpty(r, (x: Suggestion) => x.matchScore == k);
        FilterEmpty(ranked, (x: Suggestion) => x.matchScore == k);
      }
    }
    SameGroupsEqual(r, ranked);
  }

  /** Two score-sorted sequences with the same suggestions of each score, in the
      same order, are equal. */
  lemma {:induction false} SameGroupsEqual(a: seq<Suggestion>, b: seq<Suggestion>)
    requires SortedByScore(a) && SortedByScore(b)
    requires forall k :: WithScore(a, k) == WithScore(b, k)
    ensures a == b
    decreases |a| + |b|
  {
    assert |a| > 0 ==> WithScore(a, a[0].matchScore) == [a[0]] + WithScore(a[1..], a[0].matchScore);
    assert |b| > 0 ==> WithScore(b, b[0].matchScore) == [b[0]] + WithScore(b[1..], b[0].matchScore);
    if |a| > 0 && |b| > 0 {
      var m := a[0].matchScore;
      var n := b[0].matchScore;
      WithScoreMembership(a, n, b[0]);
      WithScoreMembership(b, m, a[0]);
      var i :| 0 <= i < |a| && a[i] == b[0];
      var j :| 0 <= j < |b| && b[j] == a[0];
      assert n <= m by {
        assert i == 0 || a[0].matchScore >= a[i].matchScore;
      }
      assert m <= n by {
        assert j == 0 || b[0].matchScore >= b[j].matchScore;
      }
      assert a[0] == b[0];
      forall k
        ensures WithScore(a[1..], k) == WithScore(b[1..], k)
      {
        var p := (x: Suggestion) => x.matchScore == k;
        assert a == [a[0]] + a[1..] && b == [b[0]] + b[1..];
        FilterAppend([a[0]], a[1..], p);
        FilterAppend([b[0]], b[1..], p);
        var head := Filter([a[0]], p);
        assert WithScore(a, k) == head + WithScore(a[1..], k);
        assert WithScore(b, k) == head + WithScore(b[1..], k);
        assert WithScore(a[1..], k) == WithScore(a, k)[|head|..];
        assert WithScore(b[1..], k) == WithScore(b, k)[|head|..];
      }
      SameGroupsEqual(a[1..], b[1..]);
      assert a == [a[0]] + a[1..] && b == [b[0]] + b[1..];
    }
  }

  lemma {:induction false} WithScoreMembership(s: seq<Suggestion>, k: int, x: Suggestion)
    ensures x in WithScore(s, k) <==> x in s && x.matchScore == k
  {
    FilterMembership(s, (y: Suggestion) => y.matchScore == k, x);
  }

  /** `suggestProjects` over an arbitrary catalog: every entry scored in catalog
      order, then ranked. */
  function Suggest(catalog: seq<Project>, input: Input): (r: seq<Suggestion>)
    ensures |r| <= |catalog|
    ensures forall i :: 0 <= i < |r| ==> r[i].matchScore > 0
    ensures SortedByScore(r)
    ensures forall x :: x in r <==> x in ScoreAll(catalog, input) && x.matchScore > 0
    ensures forall k :: k > 0 ==> WithScore(r, k) == WithScore(ScoreAll(catalog, input), k)
  {
    var scored := ScoreAll(catalog, input);
    Rank(scored)
  }

  /** For a positive score `k`, dropping the zero scores first changes nothing. */
  lemma {:induction false} FilterOfFilter(s: seq<Suggestion>, k: int)
    requires k > 0
    ensures WithScore(Filter(s, (x: Suggestion) => x.matchScore > 0), k) == WithScore(s, k)
    decreases |s|
  {
    if |s| > 0 {
      FilterOfFilter(s[1..], k);
    }
  }

  /** `suggestProjects`: the scorer over the project catalog. At most the five
      catalog entries come back, each once, each with a positive score, best
      first, entries with equal scores in catalog order; an entry comes back
      exactly when it scores above zero. */
  function SuggestProjects(input: Input): (r: seq<Suggestion>)
    ensures |r| <= 5
    ensures forall i :: 0 <= i < |r| ==> r[i].matchScore > 0
    ensures SortedByScore(r)
    ensures NoDuplicates(r)
    ensures forall x :: x in r <==>
              exists j :: 0 <= j < |ProjectDatabase| && x == Score(input, ProjectDatabase[j]) && x.matchScore > 0
    ensures forall k :: k > 0 ==> WithScore(r, k) == WithScore(ScoreAll(ProjectDatabase, input), k)
  {
    DatabaseShape();
    SuggestDistinct(ProjectDatabase, input);
    SuggestMembers(ProjectDatabase, input);
    Suggest(ProjectDatabase, input)
  }

  /** The suggestions are the catalog's entries, scored, that score above zero. */
  lemma {:induction false} SuggestMembers(catalog: seq<Project>, input: Input)
    ensures forall x :: x in Suggest(catalog, input) <==>
              exists j :: 0 <= j < |catalog| && x == Score(input, catalog[j]) && x.matchScore > 0
  {
    var scored := ScoreAll(catalog, input);
    forall x | x in scored
      ensures exists j :: 0 <= j < |catalog| && x == Score(input, catalog[j])
    {
      var j :| 0 <= j < |scored| && scored[j] == x;
    }
  }

  /** A catalog entry is in the result exactly when one of its match lists is
      non-empty. */
  lemma {:induction false} SuggestKeepsEntry(catalog: seq<Project>, input: Input, i: nat)
    requires i < |catalog|
    ensures Score(input, catalog[i]) in Suggest(catalog, input) <==>
      || TermMatches(catalog[i].tags, input.skills) != []
      || TermMatches(catalog[i].tags, input.interests) != []
      || PublicationMatches(catalog[i].tags, input.publications) != []
  {
    assert ScoreAll(catalog, input)[i] == Score(input, catalog[i]);
  }

  /** With distinct titles in the catalog, no entry is suggested twice. */
  lemma {:induction false} SuggestDistinct(catalog: seq<Project>, input: Input)
    requires DistinctTitles(catalog)
    ensures NoDuplicates(Suggest(catalog, input))
  {
    var scored := ScoreAll(catalog, input);
    forall i, j | 0 <= i < j < |scored|
      ensures scored[i] != scored[j]
    {
      assert scored[i].title == catalog[i].title && scored[j].title == catalog[j].title;
    }
    var r := Rank(scored);
    forall x
      ensures multiset(r)[x] <= 1
    {
      CountAtMostOnce(scored, x);
    }
    AtMostOnceNoDuplicates(r);
  }

  lemma {:induction false} CountAtMostOnce<T>(s: seq<T>, x: T)
    requires NoDuplicates(s)
    ensures multiset(s)[x] <= 1
    decreases |s|
  {
    if |s| > 0 {
      assert s == [s[0]] + s[1..];
      CountAtMostOnce(s[1..], x);
      if s[0] == x {
        assert x !in s[1..];
      }
    }
  }

  lemma {:induction false} AtMostOnceNoDuplicates<T>(s: seq<T>)
    requires forall x :: multiset(s)[x] <= 1
    ensures NoDuplicates(s)
  {
    forall i, j | 0 <= i < j < |s|
      ensures s[i] != s[j]
    {
      assert s == s[..i] + [s[i]] + s[i + 1..j] + [s[j]] + s[j + 1..];
      assert multiset(s)[s[i]] >= 1 + (if s[j] == s[i] then 1 else 0);
    }
  }

  /** No skills, interests or publications: nothing is suggested, and nothing fails. */
  lemma {:induction false} SuggestEmptyInput(catalog: seq<Project>)
    ensures Suggest(catalog, Input([], [], [])) == []
  {
    var scored := ScoreAll(catalog, Input([], [], []));
    assert forall x :: x in scored ==> x.matchScore == 0;
  }
}
