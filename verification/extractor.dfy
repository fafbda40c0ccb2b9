/** `extractStructuredData` of lib/resume/extractor.ts: the heuristics that turn
    the plain text of a résumé into a record of name, e-mail addresses, phone
    number, skills, education and experience lines. */
module Extractor {
  import opened Wrappers
  import opened Seqs
  import opened Text
  import opened Patterns
  import opened Scan

  datatype ResumeRecord = ResumeRecord(
    name: string,
    emails: seq<string>,
    phone: string,
    skills: seq<string>,
    education: seq<string>,
    experience: seq<string>)

  // ---------------------------------------------------------------- Lines

  /** `xs.map(l => l.trim())`: each element trimmed, so trimming again changes
      none of them. */
  function TrimAll(ls: seq<string>): (r: seq<string>)
    ensures |r| == |ls|
    ensures forall i :: 0 <= i < |r| ==> r[i] == Trim(ls[i])
    ensures forall i :: 0 <= i < |r| ==> Trim(r[i]) == r[i]
  {
    var r := seq(|ls|, i requires 0 <= i < |ls| => Trim(ls[i]));
    forall i | 0 <= i < |r|
      ensures Trim(r[i]) == r[i]
    {
      TrimIdempotent(ls[i]);
    }
    r
  }

  predicate NonBlank(l: string)
  {
    l != ""
  }

  /** A line as the extractor keeps it: non-empty, trimmed, one line only. */
  predicate IsCleanLine(l: string)
  {
    l != "" && Trim(l) == l && '\n' !in l
  }

  /** The lines of the text, each trimmed, blank ones dropped, in text order. */
  function Lines(text: string): (r: seq<string>)
    ensures forall i :: 0 <= i < |r| ==> IsCleanLine(r[i])
    ensures IsSubsequence(r, TrimAll(SplitLines(text)))
  {
    var pieces := SplitLines(text);
    var trimmed := TrimAll(pieces);
    var r := Filter(trimmed, NonBlank);
    forall i | 0 <= i < |r|
      ensures IsCleanLine(r[i])
    {
      FilterMembership(trimmed, NonBlank, r[i]);
      var k :| 0 <= k < |trimmed| && trimmed[k] == r[i];
      TrimIdempotent(pieces[k]);
      TrimKeepsOnlyItsChars(pieces[k]);
    }
    r
  }

  /** Every character of `Trim(s)` is a character of `s`. */
  lemma {:induction false} TrimKeepsOnlyItsChars(s: string)
    ensures forall c :: c in Trim(s) ==> c in s
  {
    var r := Trim(s);
    var i := TrimIsSlice(s);
    forall c | c in r
      ensures c in s
    {
      var k :| 0 <= k < |r| && r[k] == c;
      assert s[i + k] == c;
    }
  }

  /** The carriage return of a `\r\n` separator never reaches a line: splitting at
      bare line feeds gives the same lines. */
  lemma {:induction false} LinesIgnoreCR(text: string)
    ensures Lines(text) == Filter(TrimAll(Split(text, '\n')), NonBlank)
  {
    var pieces := Split(text, '\n');
    var lines := SplitLines(text);
    forall i | 0 <= i < |pieces|
      ensures Trim(lines[i]) == Trim(pieces[i])
    {
      if lines[i] != pieces[i] {
        TrimDropsTrailingCR(lines[i]);
      }
    }
    assert TrimAll(lines) == TrimAll(pieces);
  }

  /** Clean lines joined by line feeds come back unchanged. */
  lemma {:induction false} LinesOfJoin(ls: seq<string>)
    requires forall i :: 0 <= i < |ls| ==> IsCleanLine(ls[i])
    ensures Lines(Join(ls, '\n')) == ls
  {
    var text := Join(ls, '\n');
    if |ls| == 0 {
      assert Split(text, '\n') == [""];
      assert TrimAll(SplitLines(text)) == [""];
      assert Filter([""], NonBlank) == [];
    } else {
      SplitLinesOfJoin(ls);
      TrimAllOfTrimmed(ls);
      FilterKeepsAll(ls, NonBlank);
    }
  }

  /** Lines joined by line feeds, whatever their white space and blank lines, give
      back their trimmed non-blank forms, in order. */
  lemma {:induction false} LinesOfPieces(ls: seq<string>)
    requires forall i :: 0 <= i < |ls| ==> '\n' !in ls[i]
    ensures Lines(Join(ls, '\n')) == Filter(TrimAll(ls), NonBlank)
  {
    var text := Join(ls, '\n');
    LinesIgnoreCR(text);
    if |ls| == 0 {
      assert Split(text, '\n') == [""];
      assert TrimAll([""]) == [""];
      assert Filter([""], NonBlank) == [];
    } else {
      SplitJoin(ls, '\n');
    }
  }

  lemma {:induction false} SplitLinesOfJoin(ls: seq<string>)
    requires |ls| >= 1
    requires forall i :: 0 <= i < |ls| ==> IsCleanLine(ls[i])
    ensures SplitLines(Join(ls, '\n')) == ls
  {
    SplitJoin(ls, '\n');
    var lines := SplitLines(Join(ls, '\n'));
    forall i | 0 <= i < |ls|
      ensures lines[i] == ls[i]
    {
      var l := ls[i];
      assert !IsJsSpace(Trim(l)[|l| - 1]);
      assert l[|l| - 1] != '\r';
      assert lines[i] + "\r" != l by {
        assert |lines[i] + "\r"| == |lines[i]| + 1;
        assert (lines[i] + "\r")[|lines[i]|] == '\r';
      }
    }
  }

  lemma {:induction false} TrimAllOfTrimmed(ls: seq<string>)
    requires forall i :: 0 <= i < |ls| ==> Trim(ls[i]) == ls[i]
    ensures TrimAll(ls) == ls
  {
  }

  /** A white-space-only text has no lines. */
  lemma {:induction false} BlankTextHasNoLines(text: string)
    requires AllSpace(text)
    ensures Lines(text) == []
  {
    var pieces := Split(text, '\n');
    var lines := SplitLines(text);
    var trimmed := TrimAll(lines);
    forall i | 0 <= i < |lines|
      ensures !NonBlank(trimmed[i])
    {
      JoinContainsPieces(pieces, '\n', i);
      assert forall c :: c in text ==> IsJsSpace(c);
      assert AllSpace(pieces[i]);
      assert lines[i] == pieces[i] || lines[i] == pieces[i][..|lines[i]|];
    }
    FilterEmpty(trimmed, NonBlank);
  }

  /** Every character of a piece is a character of the joined text. */
  lemma {:induction false} JoinContainsPieces(pieces: seq<string>, sep: char, i: nat)
    requires i < |pieces|
    ensures forall c :: c in pieces[i] ==> c in Join(pieces, sep)
    decreases |pieces|
  {
    if |pieces| > 1 {
      var tail := Join(pieces[1..], sep);
      assert Join(pieces, sep) == pieces[0] + [sep] + tail;
      if i > 0 {
        JoinContainsPieces(pieces[1..], sep, i - 1);
      }
    }
  }

  // ---------------------------------------------------------------- Name

  /** `[A-Z][a-z]+` */
  predicate IsCapitalizedWord(w: string)
  {
    |w| >= 2 && 'A' <= w[0] <= 'Z' && forall i :: 1 <= i < |w| ==> 'a' <= w[i] <= 'z'
  }

  /** `^[A-Z][a-z]+ [A-Z][a-z]+(?: [A-Z][a-z]+)?$`: two or three capitalised words
      separated by single spaces. */
  predicate IsNameLine(l: string)
  {
    var words := Split(l, ' ');
    (|words| == 2 || |words| == 3) && forall i :: 0 <= i < |words| ==> IsCapitalizedWord(words[i])
  }

  /** Two or three capitalised words joined by single spaces form a name line. */
  lemma {:induction false} NameLineOfWords(words: seq<string>)
    requires |words| == 2 || |words| == 3
    requires forall i :: 0 <= i < |words| ==> IsCapitalizedWord(words[i])
    ensures IsNameLine(Join(words, ' '))
  {
    forall i | 0 <= i < |words|
      ensures ' ' !in words[i]
    {
      assert forall k :: 0 <= k < |words[i]| ==> words[i][k] != ' ';
    }
    SplitJoin(words, ' ');
  }

  /** A name line is a clean line that starts with a capital letter. */
  lemma {:induction false} NameLineIsClean(l: string)
    requires IsNameLine(l)
    ensures IsCleanLine(l) && 'A' <= l[0] <= 'Z'
  {
    var words := Split(l, ' ');
    JoinOfWords(words);
    TrimUntouched(l);
  }

  /** Capitalised words joined by spaces: letters and spaces only, starting with
      the first word's capital and ending in a lower-case letter. */
  lemma {:induction false} JoinOfWords(words: seq<string>)
    requires |words| >= 1
    requires forall i :: 0 <= i < |words| ==> IsCapitalizedWord(words[i])
    ensures var l := Join(words, ' ');
            && |l| >= 2 && |words[0]| >= 2 && l[0] == words[0][0] && 'a' <= l[|l| - 1] <= 'z'
            && forall k :: 0 <= k < |l| ==> l[k] == ' ' || 'A' <= l[k] <= 'Z' || 'a' <= l[k] <= 'z'
    decreases |words|
  {
    if |words| > 1 {
      var rest := words[1..];
      JoinOfWords(rest);
      var l := Join(words, ' ');
      var tail := Join(rest, ' ');
      assert l == words[0] + [' '] + tail;
      forall k | 0 <= k < |l|
        ensures l[k] == ' ' || 'A' <= l[k] <= 'Z' || 'a' <= l[k] <= 'z'
      {
        if k < |words[0]| {
          assert l[k] == words[0][k];
        } else if k > |words[0]| {
          assert l[k] == tail[k - |words[0]| - 1];
        }
      }
      assert l[|l| - 1] == tail[|tail| - 1];
    }
  }

  /** The first name line, else the first line, else `"Unknown"`. */
  function ExtractName(lines: seq<string>): (r: string)
    ensures r != ""
    ensures (exists i :: 0 <= i < |lines| && IsNameLine(lines[i])) ==>
              && IsNameLine(r)
              && exists i :: 0 <= i < |lines| && lines[i] == r && forall j :: 0 <= j < i ==> !IsNameLine(lines[j])
    ensures (forall i :: 0 <= i < |lines| ==> !IsNameLine(lines[i])) ==>
              r == if |lines| > 0 && lines[0] != "" then lines[0] else "Unknown"
  {
    match FindFirst(lines, IsNameLine)
    case Some(k) =>
      assert |Split(lines[k], ' ')| >= 2;
      lines[k]
    case None => if |lines| > 0 && lines[0] != "" then lines[0] else "Unknown"
  }

  // ---------------------------------------------------------------- E-mail

  /** Every e-mail-shaped stretch of the text, left to right, each search resuming
      after the previous address. */
  function ExtractEmails(text: string): (r: seq<string>)
    ensures forall i :: 0 <= i < |r| ==> IsEmail(r[i])
    ensures exists spans :: && GlobalMatches(MatcherOf(Email), text, 0, spans)
                            && Chained(text, 0, spans)
                            && r == Slices(text, spans)
    ensures r == [] <==> forall p, e :: 0 <= p <= e <= |text| ==> !IsEmail(text[p..e])
  {
    var m := MatcherOf(Email);
    var spans := AllFrom(m, text, 0);
    var r := Slices(text, spans);
    GlobalMatchesAreMatches(m, text, 0, spans);
    forall i | 0 <= i < |r|
      ensures IsEmail(r[i])
    {
      assert EmailAt(text, spans[i].start) == Some(spans[i].end);
      EmailAtIsEmail(text, spans[i].start);
    }
    assert r == [] ==> forall p, e :: 0 <= p <= e <= |text| ==> !IsEmail(text[p..e]) by {
      if r == [] {
        assert NoMatchFrom(m, text, 0);
        forall p, e | 0 <= p <= e <= |text|
          ensures !IsEmail(text[p..e])
        {
          assert m(text, p) == EmailAt(text, p);
          if IsEmail(text[p..e]) {
            EmailAtComplete(text, p, e);
          }
        }
      }
    }
    r
  }

  // ---------------------------------------------------------------- Phone

  /** `s` is the text of the leftmost match of `m` in `t`. */
  ghost predicate LeftmostText(m: Matcher, t: string, s: string)
  {
    exists sp :: Leftmost(m, t, 0, sp) && sp.start <= sp.end <= |t| && s == t[sp.start..sp.end]
  }

  /** The leftmost Indian mobile number, else the leftmost long digit run, else "". */
  function ExtractPhone(text: string): (r: string)
    ensures !NoMatchFrom(MatcherOf(IndianMobile), text, 0) ==>
              IsIndianMobile(r) && LeftmostText(MatcherOf(IndianMobile), text, r)
    ensures NoMatchFrom(MatcherOf(IndianMobile), text, 0) && !NoMatchFrom(MatcherOf(DigitRun), text, 0) ==>
              LeftmostText(MatcherOf(DigitRun), text, r)
    ensures r == "" <==> NoMatchFrom(MatcherOf(IndianMobile), text, 0) && NoMatchFrom(MatcherOf(DigitRun), text, 0)
  {
    match FirstFrom(MatcherOf(IndianMobile), text, 0)
    case Some(sp) =>
      IndianMobileAtShape(text, sp.start);
      text[sp.start..sp.end]
    case None =>
      match FirstFrom(MatcherOf(DigitRun), text, 0)
      case Some(sp) => text[sp.start..sp.end]
      case None => ""
  }

  // ---------------------------------------------------------------- Skills

  /** The lexicon entries whose lower-case form occurs in the lower-cased text, in
      lexicon order; an entry listed twice in the lexicon is found twice. */
  function ExtractSkills(lexicon: seq<string>, lowerText: string): (r: seq<string>)
    ensures IsSubsequence(r, lexicon)
    ensures forall s :: s in r <==> s in lexicon && Contains(lowerText, Lower(s))
    ensures forall s :: multiset(r)[s] == if Contains(lowerText, Lower(s)) then multiset(lexicon)[s] else 0
  {
    var mentioned := (skill: string) => Contains(lowerText, Lower(skill));
    var r := Filter(lexicon, mentioned);
    FilterMultiset(lexicon, mentioned);
    forall s
      ensures s in r <==> s in lexicon && Contains(lowerText, Lower(s))
    {
      FilterMembership(lexicon, mentioned, s);
    }
    r
  }

  /** Searching the lowered text finds a skill whatever its letter case: an entry
      is listed exactly when some stretch of the text equals it up to case. */
  lemma {:induction false} SkillsIgnoreCase(lexicon: seq<string>, text: string, s: string)
    ensures s in ExtractSkills(lexicon, Lower(text)) <==> s in lexicon && exists i: nat :: FoldedAt(text, i, s)
  {
    if Contains(Lower(text), Lower(s)) {
      var i :| OccursAt(Lower(text), Lower(s), i);
      LowerSlice(text, i, i + |s|);
      assert FoldedAt(text, i, s);
    }
    if i: nat :| FoldedAt(text, i, s) {
      LowerSlice(text, i, i + |s|);
      assert OccursAt(Lower(text), Lower(s), i);
    }
  }

  /** A lexicon entry written in the résumé in any letter case is among its skills. */
  lemma {:induction false} SkillInAnyCase(lexicon: seq<string>, text: string, s: string, w: string)
    requires s in lexicon && Lower(w) == Lower(s) && Contains(text, w)
    ensures s in ExtractStructuredData(lexicon, text).skills
  {
    var i :| OccursAt(text, w, i);
    assert |w| == |s|;
    assert FoldedAt(text, i, s);
    SkillsIgnoreCase(lexicon, text, s);
    assert ExtractStructuredData(lexicon, text).skills == ExtractSkills(lexicon, Lower(text));
  }

  // ---------------------------------------------------------------- Education

  /** The degree matches followed by the CGPA match, if any, before trimming. */
  function EducationCandidates(text: string): (r: seq<string>)
  {
    AllMatches(Degree, text) + match FirstMatch(Cgpa, text) case Some(c) => [c] case None => []
  }

  /** The candidates are the degree matches and the CGPA match, which comes last. */
  lemma {:induction false} EducationCandidatesMembers(text: string)
    ensures var r := EducationCandidates(text);
            && (forall x :: x in r <==> x in AllMatches(Degree, text) || FirstMatch(Cgpa, text) == Some(x))
            && (FirstMatch(Cgpa, text).Some? ==> |r| > 0 && r[|r| - 1] == FirstMatch(Cgpa, text).value)
            && (FirstMatch(Cgpa, text).None? ==> r == AllMatches(Degree, text))
  {
  }

  /** The trimmed candidates, each once, in order of first appearance. */
  function ExtractEducation(text: string): (r: seq<string>)
    ensures NoDuplicates(r)
    ensures forall i :: 0 <= i < |r| ==> Trim(r[i]) == r[i]
    ensures forall x :: x in r <==> x in TrimAll(EducationCandidates(text))
  {
    var trimmed := TrimAll(EducationCandidates(text));
    Dedup(trimmed)
  }

  /** Each degree match yields an entry, and a degree entry never spans two lines. */
  lemma {:induction false} DegreeEntriesSingleLine(text: string)
    ensures forall x :: x in AllMatches(Degree, text) ==> '\n' !in Trim(x) && Trim(x) in ExtractEducation(text)
  {
    var ms := AllMatches(Degree, text);
    var cands := EducationCandidates(text);
    forall x | x in ms
      ensures '\n' !in Trim(x) && Trim(x) in ExtractEducation(text)
    {
      var k :| 0 <= k < |ms| && ms[k] == x;
      DegreeMatchSingleLine(text, k);
      TrimKeepsOnlyItsChars(x);
      assert cands[k] == x;
      assert TrimAll(cands)[k] == Trim(x);
    }
  }

  /** The span of the `k`-th degree match, read as a match of `DegreeAt`. */
  lemma {:induction false} DegreeMatchSpan(text: string, k: nat) returns (sp: Span)
    requires k < |AllMatches(Degree, text)|
    ensures sp.start < sp.end <= |text| && DegreeAt(text, sp.start) == Some(sp.end)
    ensures AllMatches(Degree, text)[k] == text[sp.start..sp.end]
  {
    sp := AllMatchesAt(Degree, text, k);
    assert MatchAt(Degree, text, sp.start) == DegreeAt(text, sp.start);
  }

  /** A degree match stays on one line. */
  lemma {:induction false} DegreeMatchSingleLine(text: string, k: nat)
    requires k < |AllMatches(Degree, text)|
    ensures '\n' !in AllMatches(Degree, text)[k]
  {
    var sp := DegreeMatchSpan(text, k);
    DegreeAtShape(text, sp.start);
    var x := text[sp.start..sp.end];
    forall j | 0 <= j < |x|
      ensures x[j] != '\n'
    {
      assert x[j] == text[sp.start + j];
    }
  }

  /** A degree match starts with the initial of a degree keyword. */
  lemma {:induction false} DegreeMatchInitial(text: string, k: nat)
    requires k < |AllMatches(Degree, text)|
    ensures var x := AllMatches(Degree, text)[k];
            |x| > 0 && (LowerChar(x[0]) == 'b' || LowerChar(x[0]) == 'm' || LowerChar(x[0]) == 'p')
  {
    var sp := DegreeMatchSpan(text, k);
    DegreeAtInitial(text, sp.start);
    assert AllMatches(Degree, text)[k][0] == text[sp.start];
  }

  /** The CGPA match, when there is one, is its own trim and has the CGPA shape. */
  lemma {:induction false} CgpaMatchShape(text: string)
    requires FirstMatch(Cgpa, text).Some?
    ensures var c := FirstMatch(Cgpa, text).value;
            && Trim(c) == c
            && FoldedAt(c, 0, "CGPA")
            && 5 <= |c| <= 9
            && (forall i :: 5 <= i < |c| ==> IsDigitOrDot(c[i]))
            && ((IsDigitOrDot(c[4]) && |c| <= 8) || ((c[4] == ':' || IsJsSpace(c[4])) && |c| >= 6))
  {
    var sp := CgpaMatchSpan(text);
    CgpaAtShape(text, sp.start);
    var c := text[sp.start..sp.end];
    assert Lower(c[0..4])[0] == LowerChar(c[0]) == 'c';
    TrimUntouched(c);
  }

  /** The span of the CGPA match, read as a match of `CgpaAt`. */
  lemma {:induction false} CgpaMatchSpan(text: string) returns (sp: Span)
    requires FirstMatch(Cgpa, text).Some?
    ensures sp.start < sp.end <= |text| && CgpaAt(text, sp.start) == Some(sp.end)
    ensures FirstMatch(Cgpa, text).value == text[sp.start..sp.end]
  {
    sp := FirstMatchAt(Cgpa, text);
    assert MatchAt(Cgpa, text, sp.start) == CgpaAt(text, sp.start);
  }

  /** An entry that starts with "CGPA:" never has a space after the colon: the
      CGPA pattern takes at most one separator, and a degree entry starts with a
      keyword, never with `C`. */
  lemma {:induction false} ColonSpaceNeverListed(text: string)
    ensures forall x :: x in ExtractEducation(text) && |x| >= 6 && x[0] == 'C' && x[4] == ':' ==> x[5] != ' '
  {
    var r := ExtractEducation(text);
    var trimmed := TrimAll(EducationCandidates(text));
    forall x | x in r && |x| >= 6 && x[0] == 'C' && x[4] == ':'
      ensures x[5] != ' '
    {
      assert x in trimmed;
      var k :| 0 <= k < |trimmed| && trimmed[k] == x;
      CandidateNotColonSpace(text, k);
    }
  }

  /** "CGPA: 3.8", as a résumé usually writes it, is never an education entry. */
  lemma {:induction false} CgpaWithSpaceNeverListed(text: string)
    ensures "CGPA: 3.8" !in ExtractEducation(text)
  {
    ColonSpaceNeverListed(text);
    ColonSpaceAbsent(ExtractEducation(text));
  }

  /** A list with no "C...:" entry followed by a space does not hold "CGPA: 3.8". */
  lemma {:induction false} ColonSpaceAbsent(entries: seq<string>)
    requires forall x :: x in entries && |x| >= 6 && x[0] == 'C' && x[4] == ':' ==> x[5] != ' '
    ensures "CGPA: 3.8" !in entries
  {
    var bad := "CGPA: 3.8";
    assert |bad| >= 6 && bad[0] == 'C' && bad[4] == ':' && bad[5] == ' ';
  }

  lemma {:induction false} CandidateNotColonSpace(text: string, k: nat)
    requires k < |EducationCandidates(text)|
    ensures var y := Trim(EducationCandidates(text)[k]);
            |y| >= 6 && y[0] == 'C' && y[4] == ':' ==> y[5] != ' '
  {
    var ms := AllMatches(Degree, text);
    var cands := EducationCandidates(text);
    if k < |ms| {
      assert cands[k] == ms[k];
      DegreeCandidateInitial(text, k);
    } else {
      assert cands[k] == FirstMatch(Cgpa, text).value;
      CgpaMatchShape(text);
    }
  }

  /** A trimmed degree entry never starts with `C`. */
  lemma {:induction false} DegreeCandidateInitial(text: string, k: nat)
    requires k < |AllMatches(Degree, text)|
    ensures var y := Trim(AllMatches(Degree, text)[k]); |y| > 0 && y[0] != 'C'
  {
    var x := AllMatches(Degree, text)[k];
    DegreeMatchInitial(text, k);
    TrimKeepsStart(x);
  }

  // ---------------------------------------------------------------- Experience

  const ExperienceVerbs: seq<string> :=
    ["developed", "engineered", "led", "built", "created", "project", "intern", "implemented", "managed"]

  /** `^[-•*]` */
  predicate IsBullet(l: string)
  {
    |l| > 0 && (l[0] == '-' || l[0] == '•' || l[0] == '*')
  }

  /** One of the verbs occurs in the line, in any letter case. */
  predicate MentionsVerb(l: string)
  {
    exists k :: 0 <= k < |ExperienceVerbs| && Contains(Lower(l), ExperienceVerbs[k])
  }

  predicate IsExperienceLine(l: string)
  {
    IsBullet(l) || MentionsVerb(l)
  }

  /** Whether a line is kept does not depend on its letter case. */
  lemma {:induction false} ExperienceIgnoresCase(l: string)
    ensures IsExperienceLine(Lower(l)) == IsExperienceLine(l)
  {
    LowerIdempotent(l);
    if |l| > 0 {
      assert Lower(l)[0] == LowerChar(l[0]);
    }
  }

  /** The bulleted lines and the lines that mention one of the verbs, in order;
      a line that occurs several times is kept as often as it occurs. */
  function ExtractExperience(lines: seq<string>): (r: seq<string>)
    ensures IsSubsequence(r, lines)
    ensures forall l :: l in r <==> l in lines && (IsBullet(l) || MentionsVerb(l))
    ensures forall l :: multiset(r)[l] == if IsExperienceLine(l) then multiset(lines)[l] else 0
  {
    var r := Filter(lines, IsExperienceLine);
    forall l
      ensures l in r <==> l in lines && IsExperienceLine(l)
    {
      FilterMembership(lines, IsExperienceLine, l);
    }
    FilterMultiset(lines, IsExperienceLine);
    r
  }

  // ---------------------------------------------------------------- Record

  /** The whole record; `lexicon` is the skill list the extractor searches for. */
  function ExtractStructuredData(lexicon: seq<string>, text: string): (r: ResumeRecord)
    ensures r.name != ""
    ensures forall i :: 0 <= i < |r.emails| ==> IsEmail(r.emails[i])
    ensures IsSubsequence(r.skills, lexicon)
    ensures NoDuplicates(r.education)
    ensures IsSubsequence(r.experience, Lines(text))
    ensures forall i :: 0 <= i < |r.experience| ==> IsCleanLine(r.experience[i])
  {
    var lines := Lines(text);
    ExperienceIsClean(lines);
    ResumeRecord(
      ExtractName(lines),
      ExtractEmails(text),
      ExtractPhone(text),
      ExtractSkills(lexicon, Lower(text)),
      ExtractEducation(text),
      ExtractExperience(lines))
  }

  /** The experience lines of clean lines are clean. */
  lemma {:induction false} ExperienceIsClean(lines: seq<string>)
    requires forall i :: 0 <= i < |lines| ==> IsCleanLine(lines[i])
    ensures forall i :: 0 <= i < |ExtractExperience(lines)| ==> IsCleanLine(ExtractExperience(lines)[i])
  {
    var r := ExtractExperience(lines);
    forall i | 0 <= i < |r|
      ensures IsCleanLine(r[i])
    {
      assert r[i] in lines;
    }
  }

  /** A blank résumé has no name, no e-mail address and no experience. */
  lemma {:induction false} BlankResume(lexicon: seq<string>, text: string)
    requires AllSpace(text)
    ensures ExtractStructuredData(lexicon, text).name == "Unknown"
    ensures ExtractStructuredData(lexicon, text).emails == []
    ensures ExtractStructuredData(lexicon, text).experience == []
  {
    var r := ExtractStructuredData(lexicon, text);
    BlankTextHasNoLines(text);
    assert r.name == ExtractName([]) && r.experience == ExtractExperience([]);
    BlankTextHasNoEmails(text);
    assert r.emails == ExtractEmails(text);
  }

  /** A white-space-only text holds no e-mail address. */
  lemma {:induction false} BlankTextHasNoEmails(text: string)
    requires AllSpace(text)
    ensures ExtractEmails(text) == []
  {
    forall p, e | 0 <= p <= e <= |text|
      ensures !IsEmail(text[p..e])
    {
      forall a | 0 <= a < e - p
        ensures text[p..e][a] != '@'
      {
        assert text[p..e][a] == text[p + a];
      }
    }
  }
}
