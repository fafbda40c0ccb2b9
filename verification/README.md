# ScholarSync résumé integration, modelled in Dafny

ScholarSync takes a résumé and a Google Scholar profile and suggests research
projects. This project models its core in Dafny and proves properties of that model.
The core has four parts:

- **Résumé parsing** (`lib/resume/parser.ts`). The file extension picks a PDF or
  DOCX decoder. Decoded text whose trimmed length is under 10 UTF-16 code units
  is refused. Any
  other text goes to the extractor.
- **Structured extraction** (`lib/resume/extractor.ts`). It produces the name, the
  e-mail addresses, a phone number, the skills from a lexicon, the education
  entries and the experience lines. Each regular expression is written out as
  the match that a backtracking ECMAScript engine finds at one start position
  (module `Patterns`). How `match`/`matchAll` drive a pattern over a text, with
  and without the `g` flag, is in module `Scan`.
- **Project suggestion** (`lib/suggest/matcher.ts`, `lib/suggest/database.ts`).
  Each catalog entry is scored by keyword overlap: 4 per skill, 3 per interest and
  2 per publication. Entries that score zero are dropped. The rest are ranked
  with a stable sort on the score.
- **Rate limiting** (`app/middleware.ts`). Each client address has a counter and
  the start of its window. A client is allowed 30 requests per 60-second window.
  The 31st and later requests in a window get status 429.

Modules, in dependency order:

- `Wrappers`: `Option`, `Result`.
- `Seqs`: `filter`, `find`, `Array.from(new Set(..))`.
- `Text`: ASCII `toLowerCase`, `includes`, `trim`, `split`, and the UTF-16 `length`.
- `Patterns`, `Scan`: the regular expressions and the search over a text.
- `Catalog`, `Matcher`, `Scenarios`: the suggestion engine.
- `Extractor`, `ExtractorScenarios`: résumé extraction.
- `FileNames`, `Parser`: file-type dispatch.
- `RateLimiter`: the middleware.

Two behaviours of the code that a reader can easily miss:

- **CGPA entries.** The CGPA pattern `CGPA[:\s]?[0-9.]{1,4}` allows at most one
  separator character, so it matches nothing in "CGPA: 3.8", where a colon and a
  space follow the keyword. In a line like "Bachelor of Science in Computer
  Science, CGPA: 3.8" the grade appears only inside the degree match, which runs
  to the end of the line or for 80 characters, whichever comes first
  (`Patterns.DegreeAt`). `Extractor.CgpaWithSpaceNeverListed` proves that
  "CGPA: 3.8" is never an entry of its own, and `ExtractorScenarios.CgpaColonSpace`
  proves that the pattern finds nothing in it.
- **Parser errors and MIME type.** `parseResumeFile` does not catch decoder
  exceptions: an error from a decoder propagates unchanged (`DecoderFailed`). The
  file's MIME type is never read. The extension of the file name alone selects
  the decoder.

## Model

| member | source | states |
|---|---|---|
| Seqs.Filter | lib/suggest/matcher.ts:24-26 | `xs.filter(p)` keeps only elements satisfying `p`, as a subsequence of the input |
| Seqs.FilterMultiset | lib/suggest/matcher.ts:24-34 | a filter keeps every occurrence of each element satisfying the predicate and no occurrence of any other element |
| Seqs.FilterMembership | lib/resume/extractor.ts:33-35 | an element survives a filter iff it was in the input and satisfies the predicate |
| Seqs.FilterEmpty | lib/suggest/matcher.ts:45 | a filter returns nothing iff no element satisfies the predicate |
| Seqs.FilterAppend | lib/resume/extractor.ts:48-52 | filtering a concatenation is the concatenation of the filtered parts |
| Seqs.Dedup | lib/resume/extractor.ts:41 | `Array.from(new Set(xs))` has no duplicates, holds exactly the elements of `xs`, and lists them in order of first occurrence |
| Seqs.FindFirst | lib/resume/extractor.ts:18 | `find` returns the first position satisfying the predicate, or nothing when no element satisfies it |
| Text.Lower | lib/resume/extractor.ts:5 | `toLowerCase` leaves no upper-case ASCII letter, keeps the length, and changes a character only by turning `A`-`Z` into `a`-`z` |
| Text.LowerIdempotent | lib/resume/extractor.ts:5 | lowering a lowered string changes nothing |
| Text.Utf16Length | lib/resume/parser.ts:24 | JavaScript's `length` counts one or two UTF-16 code units per character, and equals the character count iff no character lies outside the Basic Multilingual Plane |
| Text.Utf16LengthAppend | lib/resume/parser.ts:24 | the UTF-16 length of a concatenation is the sum of the parts' lengths |
| Text.Utf16LengthAstral | lib/resume/parser.ts:24 | a string of characters outside the Basic Multilingual Plane has twice as many code units as characters |
| Text.Contains | lib/suggest/matcher.ts:25 | `includes` holds iff the needle occurs at some position of the haystack |
| Text.MissingCharNotContained | lib/suggest/matcher.ts:25 | a haystack lacking one of the needle's characters does not include the needle |
| Text.Trim | lib/resume/extractor.ts:4 | `trim` never grows the string; a non-empty result neither starts nor ends with white space; the result is empty iff the string is all white space |
| Text.TrimIsSlice | lib/resume/extractor.ts:4 | the trimmed string is a stretch of the original with only white space before and after it |
| Text.TrimIdempotent | lib/resume/extractor.ts:41 | trimming a trimmed string changes nothing |
| Text.TrimUntouched | lib/resume/extractor.ts:4 | a string with non-space first and last characters is its own trim |
| Text.TrimDropsTrailingCR | lib/resume/extractor.ts:4 | a trailing carriage return never survives `trim` |
| Text.Split | lib/resume/parser.ts:7 | `split` on one character yields at least one piece; no piece holds the separator; joining the pieces gives the string back |
| Text.SplitJoin | lib/resume/parser.ts:7 | splitting the join of separator-free pieces gives the pieces back |
| Text.SplitLines | lib/resume/extractor.ts:4 | `split(/\r?\n/)` gives one piece per line feed plus one, none holding a line feed; a piece followed by a line feed loses its final carriage return exactly when it has one, and the last piece is kept whole |
| Scan.FirstFrom | lib/resume/extractor.ts:28 | a search without `g` returns the leftmost match, or reports that no match starts anywhere |
| Scan.FirstFromLeftmost | lib/resume/extractor.ts:28 | the leftmost match is the one the search returns |
| Scan.FirstMatch | lib/resume/extractor.ts:28 | `text.match(re)` without `g` gives nothing iff the pattern matches at no position |
| Scan.FirstMatchAt | lib/resume/extractor.ts:28 | a match found is the text of the leftmost span at which the pattern matches |
| Scan.AllFrom | lib/resume/extractor.ts:23 | a global search returns exactly the successive leftmost matches, each search resuming at the previous match's end; they are ordered and do not overlap |
| Scan.GlobalMatchesAreMatches | lib/resume/extractor.ts:38 | every span a global search returns is a match of the pattern |
| Scan.AllMatches | lib/resume/extractor.ts:38 | `text.match(re)` with `g` gives no matches iff the pattern matches at no position |
| Scan.TwoMatches | lib/resume/extractor.ts:23 | a text with two successive leftmost matches and nothing after them yields exactly those two |
| Patterns.Run | lib/resume/extractor.ts:23 | a greedy unbounded class quantifier consumes exactly the longest run of class members |
| Patterns.LastTopLevel | lib/resume/extractor.ts:23 | backtracking of the e-mail domain stops at the last dot followed by two letters, or fails when there is none |
| Patterns.EmailAt | lib/resume/extractor.ts:23 | an e-mail match is at least six characters long, ends in two letters, and takes every letter that follows: the `{2,}` quantifier is greedy |
| Patterns.EmailAtIsEmail | lib/resume/extractor.ts:23 | every e-mail match is local part, `@`, domain, dot, and two or more letters |
| Patterns.EmailAtComplete | lib/resume/extractor.ts:23 | wherever e-mail-shaped text starts, the e-mail pattern matches |
| Patterns.EmailAtExact | lib/resume/extractor.ts:23 | an address whose parts end where the text says they do is matched to its last letter |
| Patterns.EmailAtLongest | lib/resume/extractor.ts:23 | the e-mail match at a position is the longest e-mail-shaped text starting there, whatever follows it: the greedy domain backtracks only to its last dot that two letters follow |
| Patterns.EmailAtReaches | lib/resume/extractor.ts:23 | any e-mail-shaped text at a position ends no later than the match there |
| Patterns.NoAtAfterWord | lib/resume/extractor.ts:23 | a run of local-part characters that is not followed by `@` starts no e-mail match |
| Patterns.IndianMobileAtShape | lib/resume/extractor.ts:28 | a mobile match is ten digits starting 6-9, optionally preceded by `+91` and one space or dash |
| Patterns.IndianMobileAt | lib/resume/extractor.ts:28 | a mobile match is 10, 13 or 14 characters long; ten digits starting 6-9 always match; `+91` with one space or dash and then such digits matches all 14 characters, and `+91` directly followed by them all 13 |
| Patterns.DigitRunAt | lib/resume/extractor.ts:29 | a fallback match is 9 to 17 characters long; a digit, or a `+` and a digit, followed by eight spaces, dashes or digits always matches; after the lead (`+` and digit, or digit alone) the match holds only spaces, dashes and digits, and it stops only at the end of the text, at a character outside that class, or after 15 of them |
| Patterns.DigitRunAtShape | lib/resume/extractor.ts:29 | a fallback phone match is an optional `+`, a digit, then 8 to 15 digits, spaces or dashes |
| Patterns.DegreeAtShape | lib/resume/extractor.ts:38 | a degree match is a degree keyword in any case, then at most 80 more characters, none of them a line feed |
| Patterns.DegreeAt | lib/resume/extractor.ts:38 | a degree match starts at a position iff one of the eight degree keywords occurs there in any case; it takes the first keyword alternative that matches, then every following character up to the next line feed, the end of the text, or 80 characters, whichever comes first |
| Patterns.GreedyRunEnd | lib/resume/extractor.ts:38-39 | a greedy bounded repetition stops where the run of its class ends or at the bound |
| Patterns.GreedyEndUnique | lib/resume/extractor.ts:38-39 | a greedy bounded repetition has exactly one place to stop, so the degree and CGPA contracts fix the match end |
| Patterns.DegreeAtInitial | lib/resume/extractor.ts:38 | a degree match starts with `b`, `m` or `p` in either case |
| Patterns.CgpaAtShape | lib/resume/extractor.ts:39 | a CGPA match is "CGPA" in any case, at most one colon or space, then one to four digits and dots (so at most 8 characters without a separator and 9 with one), and it stops only at the end of the text, before a character that is not a digit or dot, or after four digits and dots |
| Patterns.CgpaAt | lib/resume/extractor.ts:39 | a CGPA match starts at a position iff "CGPA" occurs there in any case, followed by a digit or dot, or by one colon or white-space character and then a digit or dot; the separator is taken exactly when no digit or dot comes first, and then the digits and dots are taken greedily, up to four |
| Catalog.DatabaseShape | lib/suggest/database.ts:1-27 | the catalog has five entries, each with at least one tag, and no two share a title |
| Catalog.DatabaseTagPositions | lib/suggest/database.ts:2-26 | "Python" tags only the first and third entries, and "NLP" only the first, fourth and fifth |
| Matcher.Score | lib/suggest/matcher.ts:23-43 | an entry keeps its title, description and tags; its score is 4, 3 and 2 times the skill, interest and publication matches, between zero and the weighted input sizes |
| Matcher.ScoreMatchLists | lib/suggest/matcher.ts:24-30 | matched skills and interests are the caller's own, in order and with multiplicities, that some tag contains |
| Matcher.TermMatches | lib/suggest/matcher.ts:24-30 | the caller's terms that some tag contains, ignoring case: a subsequence of the terms, holding a term iff some tag contains it |
| Matcher.PublicationMatches | lib/suggest/matcher.ts:32-34 | the publications whose title contains some tag, ignoring case: a subsequence of the publications, holding a publication iff its title contains a tag |
| Matcher.MatchCounts | lib/suggest/matcher.ts:24-34 | each matching term and each matching publication is kept as often as the caller lists it, and no other is kept |
| Matcher.ScorePositiveIff | lib/suggest/matcher.ts:24-36 | an entry scores above zero iff some skill or interest is in a tag, or some publication title contains a tag |
| Matcher.ScoreAll | lib/suggest/matcher.ts:22-44 | the catalog is scored entry by entry: one suggestion per project, in catalog order, each the project's own score |
| Matcher.Insert | lib/suggest/matcher.ts:46 | inserting into a score-sorted list keeps it sorted and adds exactly one element |
| Matcher.SortByScore | lib/suggest/matcher.ts:46 | the sort is a permutation in non-increasing score order |
| Matcher.SortStable | lib/suggest/matcher.ts:46 | the sort keeps the relative order of equal scores |
| Matcher.Rank | lib/suggest/matcher.ts:45-46 | the ranking holds exactly the positive-score entries with their multiplicities, in non-increasing score order, and equal scores keep their order |
| Matcher.RankUnique | lib/suggest/matcher.ts:45-46 | any sorted list of positive scores with the same entries per score is the ranking |
| Matcher.SameGroupsEqual | lib/suggest/matcher.ts:46 | two score-sorted lists with the same entries per score, in the same order, are equal |
| Matcher.Suggest | lib/suggest/matcher.ts:18-47 | the suggestions are the scored catalog entries above zero, sorted by score, with equal scores in catalog order |
| Matcher.SuggestKeepsEntry | lib/suggest/matcher.ts:22-45 | a catalog entry is suggested iff one of its match lists is non-empty |
| Matcher.SuggestDistinct | lib/suggest/matcher.ts:22-46 | with distinct catalog titles, no suggestion appears twice |
| Matcher.SuggestMembers | lib/suggest/matcher.ts:22-45 | a suggestion is exactly a catalog entry's score that is above zero |
| Matcher.SuggestProjects | lib/suggest/matcher.ts:18-47 | over the five-entry catalog, at most five suggestions come back, each once, each scoring above zero, best first, entries with equal scores in catalog order, and a catalog entry comes back iff it scores above zero |
| Matcher.SuggestEmptyInput | lib/suggest/matcher.ts:18-47 | with no skills, interests or publications nothing is suggested |
| Scenarios.SingleSkillScore | lib/suggest/matcher.ts:24-36 | with one skill and nothing else, an entry scores 4 if a tag contains the skill and 0 otherwise |
| Scenarios.PythonSkillOnly | lib/suggest/matcher.ts:22-46 | the skill Python alone yields the Resume Ranker and the Threat Detection System, each scoring 4, in catalog order |
| Scenarios.SingleInterestScore | lib/suggest/matcher.ts:28-36 | with one interest and nothing else, an entry scores 3 if a tag contains the interest and 0 otherwise |
| Scenarios.NoTagContainsPair | lib/suggest/matcher.ts:25-29 | a term holding two adjacent characters that stand side by side in no lowered tag is contained in no tag |
| Scenarios.NlpInterestOnly | lib/suggest/matcher.ts:22-46 | the interest "nlp" alone yields the Resume Ranker, the Paper Recommender and the Learning Path Generator, each scoring 3, in catalog order |
| Scenarios.ThreeOfFive | lib/suggest/matcher.ts:45-46 | of five results where only the first, fourth and fifth score, and equally, the ranking keeps those three in order |
| Scenarios.RepeatedPublicationCountsTwice | lib/suggest/matcher.ts:32-36 | a matching publication listed twice adds two publication weights to the score |
| Scenarios.SkillButNotInterest | lib/suggest/matcher.ts:24-36 | a Python skill and a Machine Learning interest against tags Python and NLP give score 4 and the entry is suggested |
| Scenarios.SuggestKeepsSortedOrder | lib/suggest/matcher.ts:45-46 | a catalog already in score order, all scoring, is suggested as is |
| Scenarios.EqualScoresKeepCatalogOrder | lib/suggest/matcher.ts:46 | two entries with equal positive scores keep their catalog order |
| Extractor.Lines | lib/resume/extractor.ts:4 | every line is non-empty, its own trim and free of line feeds, and the lines are trimmed pieces of the text in text order |
| Extractor.LinesIgnoreCR | lib/resume/extractor.ts:4 | the lines are exactly the non-blank trimmed pieces of the text split at bare line feeds: splitting at `\r?\n` changes nothing once pieces are trimmed |
| Extractor.LinesOfJoin | lib/resume/extractor.ts:4 | clean lines joined by line feeds come back unchanged |
| Extractor.TrimAll | lib/resume/extractor.ts:4 | `map(l => l.trim())` keeps one entry per line, each the trim of its line and its own trim |
| Extractor.LinesOfPieces | lib/resume/extractor.ts:4 | for any pieces without line feeds, the lines of their join are the trimmed pieces that are not blank, in order |
| Extractor.BlankTextHasNoLines | lib/resume/extractor.ts:4 | an all-white-space text has no lines |
| Extractor.BlankTextHasNoEmails | lib/resume/extractor.ts:22-24 | an all-white-space text has no e-mail addresses |
| Extractor.NameLineOfWords | lib/resume/extractor.ts:18 | two or three capitalised words joined by single spaces form a name line |
| Extractor.NameLineIsClean | lib/resume/extractor.ts:18 | a line the name pattern accepts starts with a capital letter, is non-empty and is its own trim, so `trim` and `filter(Boolean)` keep it unchanged |
| Extractor.ExtractName | lib/resume/extractor.ts:17-20 | the name is the first name line if any; otherwise the first line; otherwise "Unknown"; it is never empty |
| Extractor.ExtractEmails | lib/resume/extractor.ts:22-24 | the addresses are the texts of a global e-mail search, each e-mail-shaped; there are none iff no e-mail-shaped text occurs |
| Extractor.ExtractPhone | lib/resume/extractor.ts:26-31 | the phone is the leftmost mobile number if any, else the leftmost digit run if any, else empty; empty iff neither pattern matches |
| Extractor.ExtractSkills | lib/resume/extractor.ts:33-35 | the skills are drawn from the lexicon in lexicon order; a lexicon entry is listed iff the lowered text includes its lower-case form, and as often as the lexicon lists it |
| Extractor.SkillsIgnoreCase | lib/resume/extractor.ts:5-35 | a lexicon entry is found in the lowered text iff it is in the lexicon and occurs in the text with any mix of letter cases |
| Extractor.SkillInAnyCase | lib/resume/extractor.ts:5-35 | a lexicon skill written in the résumé in any letter case is among the extracted skills |
| Extractor.ExtractEducation | lib/resume/extractor.ts:37-42 | the entries have no duplicates, are trimmed, and are exactly the trimmed degree matches and CGPA match |
| Extractor.EducationCandidatesMembers | lib/resume/extractor.ts:38-40 | the candidates are exactly the degree matches and the CGPA match; the CGPA match is pushed last, and without it the candidates are the degree matches |
| Extractor.DegreeEntriesSingleLine | lib/resume/extractor.ts:38-41 | every degree match yields an entry, and no degree entry spans two lines |
| Extractor.CgpaMatchShape | lib/resume/extractor.ts:39-40 | the CGPA candidate is its own trim and has the CGPA shape: "CGPA" in any case, then one to four digits and dots, directly (at most 8 characters) or after one colon or white-space character |
| Extractor.ColonSpaceNeverListed | lib/resume/extractor.ts:37-42 | no entry starting with `C` and a colon in fifth place has a space after the colon |
| Extractor.CgpaWithSpaceNeverListed | lib/resume/extractor.ts:39 | "CGPA: 3.8" is never an education entry, whatever the text |
| Extractor.DegreeCandidateInitial | lib/resume/extractor.ts:38 | a trimmed degree match is non-empty and never starts with `C` |
| Extractor.ExtractExperience | lib/resume/extractor.ts:44-55 | the experience lines are drawn from the lines in order; a line is listed iff it starts with a bullet or mentions an action verb in any case, and it is listed as often as it occurs |
| Extractor.ExperienceIgnoresCase | lib/resume/extractor.ts:46-49 | lowering a line never changes whether it is an experience line: the bullet test sees no letters and the verb test ignores case |
| Extractor.ExtractStructuredData | lib/resume/extractor.ts:3-14 | the name is never empty; addresses are e-mail-shaped; skills come from the lexicon in its order; education has no duplicates; experience is clean lines of the text in order |
| Extractor.BlankResume | lib/resume/extractor.ts:3-20 | a blank text gives name "Unknown", no addresses and no experience |
| ExtractorScenarios.NameAmongLines | lib/resume/extractor.ts:4-20 | for any line pieces, a piece whose trim is a name line, with no such piece above it, names the résumé with its trim, whatever blank, indented or CR-ended pieces surround it |
| ExtractorScenarios.JaneSmithNamed | lib/resume/extractor.ts:3-19 | a résumé with a line that trims to "Jane Smith", and no name line above it, has name "Jane Smith" |
| ExtractorScenarios.CrlfResumeNamed | lib/resume/extractor.ts:3-19 | "Jane Smith" followed by CRLF line ends, a blank line and an indented address is named "Jane Smith" |
| ExtractorScenarios.ContactEmails | lib/resume/extractor.ts:22-24 | "Contact: jane@x.com or jane.smith@y.org" gives exactly the two addresses, in order |
| ExtractorScenarios.CgpaColonSpace | lib/resume/extractor.ts:39 | the CGPA pattern finds nothing in "CGPA: 3.8" |
| ExtractorScenarios.CgpaColonDigits | lib/resume/extractor.ts:39 | the CGPA pattern matches the whole of "CGPA:3.8" |
| FileNames.Extension | lib/resume/parser.ts:7 | the extension is the lower-cased text after the last dot, or the whole name when it has no dot |
| FileNames.ExtensionIsLastPiece | lib/resume/parser.ts:7 | the extension is the last piece of the lowered name split at dots |
| FileNames.ExtensionOf | lib/resume/parser.ts:7 | a name ending in a dot and a dot-free suffix has that suffix, lowered, as its extension |
| Parser.Accept | lib/resume/parser.ts:24-30 | decoded text is extracted iff the decoder succeeded and its trimmed length in UTF-16 code units is at least 10; a decoder failure is passed on; shorter text is refused as empty |
| Parser.ParseResumeFile | lib/resume/parser.ts:5-30 | `pdf` goes to the PDF decoder, `docx` to the DOCX decoder, and every other extension is refused as unsupported |
| Parser.Message | lib/resume/parser.ts:21-25 | the two errors the parser throws carry its two messages word for word, and a decoder's error keeps its own message |
| Parser.ParsedFromDecodedText | lib/resume/parser.ts:14-30 | a successful parse is the extraction of long-enough text that one of the decoders returned |
| Parser.DecoderChoice | lib/resume/parser.ts:14-22 | a PDF never reaches the DOCX decoder, a DOCX never reaches the PDF decoder, and other files reach neither |
| Parser.TextFileRefused | lib/resume/parser.ts:20-22 | "resume.txt" is refused as unsupported whatever its contents |
| Parser.UpperCasePdfAccepted | lib/resume/parser.ts:7-16 | "CV.PDF" goes to the PDF decoder |
| Parser.LastDotCounts | lib/resume/parser.ts:7-19 | "archive.pdf.docx" goes to the DOCX decoder |
| Parser.FiveEmojiAccepted | lib/resume/parser.ts:24-30 | five emoji are only five characters but ten UTF-16 code units, so the text is long enough and is extracted |
| RateLimiter.ClientKey | app/middleware.ts:10 | a missing or empty address is keyed "unknown"; any other address is its own key |
| RateLimiter.Handle | app/middleware.ts:9-27 | a new client's entry starts at 1 and is allowed; within the window the count goes up by one and the request is refused iff it passes 30; after the window the entry restarts at 1 and is allowed; other clients' entries are unchanged |
| RateLimiter.Run | app/middleware.ts:7-27 | handling a request sequence gives one decision per request and keeps every known client |
| RateLimiter.WindowCap | app/middleware.ts:15-19 | while requests stay in a window, the entry keeps its start, counts each request, and allows at most what is left of the 30 |
| RateLimiter.OpenedWindowCap | app/middleware.ts:4-25 | at most 30 requests from one client pass in the minute after a request opens its window |
| RateLimiter.RejectedStaysRejected | app/middleware.ts:15-19 | after a refusal, a further request from the same client in the same window is refused too |
| RateLimiter.OthersUntouched | app/middleware.ts:13-25 | requests from other clients never change a client's entry |
| RateLimiter.AllowedRun | app/middleware.ts:10-19 | requests from one client, all within a minute of the start of its window, whenever that window opened: each is allowed exactly while the running count stays within 30; a client new to the table opens the window with its first request |
| RateLimiter.ThirtyFirstRejected | app/middleware.ts:4-19 | thirty requests from a new client within a second pass and the thirty-first is refused |

## Left out

- The PDF and DOCX decoders (`pdf-parse`, `mammoth`) are outside the model. They are parameters of type `Decoder`, returning text or an error message.
- Reading the uploaded file into a buffer is not modelled. The bytes are a parameter.
- The `console.log` calls in the parser have no effect on the result and are left out.
- `Date.now()` and `req.ip` are fields of each `Request`. The client map is a value threaded through `Run`, not a module-level mutable `Map`.
- The `NextResponse` objects are reduced to `Allowed` and `Rejected`. The 429 body text and the route `config.matcher` list are not modelled.
- Entries of the rate-limit map are never evicted, in the model as in the code.
- `COMMON_SKILLS` lives in `lib/resume/constants.ts`, which is not part of this model. The skill lexicon is a parameter.
- The unused `textCorpus` in `suggestProjects` has no effect on the result and is left out.
- `toLowerCase` is modelled on ASCII letters only. Other letters are left unchanged, so Unicode case mapping is not modelled.
- A `string` here is a sequence of Unicode scalar values, whereas a JavaScript string is a sequence of UTF-16 code units. Where the code compares a length, the model measures it in code units with `Text.Utf16Length`. Lone surrogates cannot be represented.
- The scholar scraper, the API routes, the Redux store and the UI are outside the core and are not modelled.
- Extractor.ExtractEducation: states which entries appear, not their order. Their order is first occurrence, which `Seqs.Dedup` states.
- Extractor.ExtractStructuredData: states a summary of the record. Each field's exact value is stated by the member that computes it.
- Patterns.DegreeAt: `[^\n]{0,80}` takes at most 80 characters, where JavaScript takes at most 80 UTF-16 code units. The two differ only when a character outside the Basic Multilingual Plane falls within 80 code units of the keyword. JavaScript's match can then end between the two halves of a surrogate pair, which a `string` here cannot express.
