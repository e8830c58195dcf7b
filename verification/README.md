# exam-topics-quiz, modelled in Dafny

This project models the decision logic of `cert-examtopics-quiz`. The tool turns saved ExamTopics exam pages into question files, then runs a terminal quiz over them. The model covers:

- **Extraction side:**
  - how question cards are located on a page;
  - how a card's question number is read (four patterns tried in order);
  - how cards are deduplicated by number;
  - the traditional field extractors, the validator that fixes up LLM output, the LLM retry loop and the LLM/traditional routing;
  - the traditional discussion parse;
  - filename sanitising and the `question_NNN.json` name;
  - page-URL collection;
  - the exam-name, file-collection and card-counting logic of the `extract-local` command.
- **Quiz side:**
  - the quiz engine, as an immutable state value plus pure transition functions;
  - the question loader's filter, select, group, count, search and cache operations;
  - the quiz CLI's mapping between the letter shown for each choice and the choice's own letter.

The datatypes follow the Pydantic models. Python dicts whose order matters (the grouping results) are insertion ordered, so they become association lists with distinct keys. Dicts that are only looked up or updated by key become a `map`: the CLI's `choice_mapping`, the loader's per-exam `_question_cache` (`Loader.Cache`) and the voting data's `vote_distribution` (`VotingData.voteDistribution`).

The model takes these inputs from the outside world as parameters:

- HTML, through what BeautifulSoup would return: each selector's list of cards, each card's flattened text and the "first matching element" results;
- the LLM, through a per-attempt sequence of outcomes (it raised, or it returned a value or nothing);
- the file system:
  - the directory listing and the outcome of reading each HTML file (`ExtractLocal.HtmlFiles`, `ExtractLocal.ReadErrors`, `ExtractLocal.PooledCards`);
  - the question list held in storage for an exam (the `stored` argument of `Loader.LoadQuestions`);
- `urljoin`, as the `join` function passed to `Pages.CollectUrls`;
- the outcome of each card of the `extract-local` loop (`CardStep`), which packs the parse and save results the loop reacts to;
- the user's answers to the prompts (`QuizCli.HandleInput`, `QuizCli.ClampCount`);
- clocks, as an opaque timestamp;
- randomness, as an arbitrary arrangement passed in.

| file | module | concern |
|---|---|---|
| common.dfy | Common | `Option`, ASCII character classes, `lower`/`strip`/`in`, decimal digits, order-preserving filter |
| models.dfy | Models | questions, choices, voting data, discussions, sessions, settings, the card record |
| numbering.dfy | Numbering | the four question-number patterns and their leftmost-match scanners |
| dedup.dfy | Dedup | first-card-per-number deduplication |
| locator.dfy | Locator | card-location tiers of the CLI and the scraper |
| extractors.dfy | Extractors | question text, choices (element and regex paths), correct answer, topic, explanation |
| parser.dfy | Parser | traditional parse, validator, retry loop, routing, discussions |
| storage.dfy | Storage | filename sanitising and the question filename |
| stringsort.dfy | StringSort | `sorted(set(...))` over strings |
| pages.dfy | Pages | `get_exam_pages` URL collection |
| extract_local.dfy | ExtractLocal | exam names, HTML file collection, pooling and the card loop |
| grouping.dfy | Grouping | the grouping loops of the quiz side |
| engine.dfy | Engine | the quiz engine state machine and its results |
| loader.dfy | Loader | question loading, filtering, selection, grouping, search |
| quiz_cli.dfy | QuizCli | display letters, input handling, vote line, count clamping |

Behaviours of the code worth knowing:

- `_validate_and_fix_question` always replaces the voting data when `total_votes == 0`. The traditional voting extractor returns a placeholder object, and that object is always truthy.
- The traditional parse gives a question with no topic found the topic `"General"`; it never stores an empty topic.
- A card whose number reads as `0` is treated as having no number by the traditional parse (it returns `None`). Deduplication drops such a card, because `0` is falsy. The model keeps both behaviours as written.

## Model

| member | source | states |
|---|---|---|
| Common.Strip | src/cert_examtopics_quiz/extractor/parser.py:341 | `str.strip()`: the result is a slice of the text, everything cut away around it is whitespace, and it neither starts nor ends with whitespace |
| Common.Lower | src/cert_examtopics_quiz/questionnaire/loader.py:246 | `str.lower()` on ASCII text: same length, no upper-case letter left, every other character kept in its place, and each upper-case letter replaced by its lower-case partner |
| Common.LowerFixedIff | src/cert_examtopics_quiz/questionnaire/loader.py:246 | lower-casing leaves text unchanged exactly when it has no upper-case letter, so lower-casing twice is the same as once |
| Common.Contains | src/cert_examtopics_quiz/questionnaire/loader.py:251 | `t in s`: true exactly when t occurs in s at some offset |
| Models.TopicKey | src/cert_examtopics_quiz/questionnaire/engine.py:304 | the topic a question is counted under is never empty: an empty topic counts as "General", any other topic as itself |
| Numbering.DigitRunEnd | src/cert_examtopics_quiz/extractor/parser.py:280-283 | the `\d+` group takes the maximal run of ASCII digits: every character up to the end is a digit, and the run stops at the end of text or at a non-digit |
| Numbering.LeftmostMatch | src/cert_examtopics_quiz/extractor/parser.py:290 | `re.search` finds the leftmost position where the literal prefix is followed by a digit; nothing is found only when no position from the start on matches |
| Numbering.PatternNumberSpec | src/cert_examtopics_quiz/extractor/parser.py:289-292 | a pattern yields no number exactly when it matches nowhere; otherwise the number is the value of the full digit run at its leftmost match |
| Numbering.FirstFoundSpec | src/cert_examtopics_quiz/extractor/parser.py:289-294 | trying the patterns' results from a given one on: no number iff none of them found one; otherwise the first that found one decides and the later ones do not matter |
| Numbering.QuestionNumberSpec | src/cert_examtopics_quiz/extractor/parser.py:279-294 | the question number comes from the first of `Question #N`, `Question N`, `QN`, `#N` that matches anywhere in the text, else there is none |
| Numbering.PatternNumber | src/cert_examtopics_quiz/cli.py:548-552 | one pattern's `re.search` and `int(match.group(1))`; its contract is PatternNumberSpec |
| Numbering.QuestionNumber | src/cert_examtopics_quiz/cli.py:537-552 | the four patterns tried in order on the card text, the first that matches deciding; its contract is QuestionNumberSpec |
| Numbering.HeaderFingerprint | src/cert_examtopics_quiz/cli.py:541-552 | a card whose text starts `Question #n` (n not followed by another digit) gets number n |
| Dedup.DedupFrom | src/cert_examtopics_quiz/cli.py:535-561 | the kept cards are a subsequence of the input; none has number 0; none repeats a number already seen or kept earlier |
| Dedup.KeptIndices | src/cert_examtopics_quiz/cli.py:554-561 | the reference definition: the kept positions, in increasing order, are exactly the positions holding an unnumbered card or the first card of a nonzero number |
| Dedup.NumbersMembership | src/cert_examtopics_quiz/cli.py:556 | a nonzero number has been seen exactly when some earlier card carries it |
| Dedup.DedupConcat | src/cert_examtopics_quiz/cli.py:535-561 | deduplicating a concatenation deduplicates the first part, then the second part against every number the first part carries |
| Dedup.LastItemDecision | src/cert_examtopics_quiz/cli.py:555-561 | the last card is kept exactly when it is unnumbered, or numbered nonzero and no earlier card has its number |
| Dedup.DedupMatchesReference | src/cert_examtopics_quiz/cli.py:535-561 | the single-pass loop with a seen set picks exactly the cards at the reference kept positions |
| Dedup.DedupFromIdempotent | src/cert_examtopics_quiz/cli.py:535-561 | running the loop again on its own output, with the same seen set, changes nothing |
| Dedup.DedupIsSubsequence | src/cert_examtopics_quiz/cli.py:535-561 | the deduplicated cards keep their original relative order |
| Dedup.DedupKeeps | src/cert_examtopics_quiz/cli.py:555-561 | an unnumbered card is always kept; a card numbered 0 is always dropped; a nonzero-numbered card is kept iff no earlier card has the same number |
| Dedup.DedupUnique | src/cert_examtopics_quiz/cli.py:554-557 | the numbered cards kept have pairwise distinct numbers |
| Dedup.DedupIdempotent | src/cert_examtopics_quiz/cli.py:521-563 | deduplicating an already deduplicated list returns it unchanged |
| Dedup.DedupAcrossSources | src/cert_examtopics_quiz/cli.py:395 | pooled deduplication keeps the earlier source's cards first; a later card survives only if its number was not seen earlier |
| Dedup.Fingerprint | src/cert_examtopics_quiz/cli.py:537-552 | a card's number is the question number of its whole text (`card.get_text()`) |
| Dedup.Deduplicate | src/cert_examtopics_quiz/cli.py:521-563 | `deduplicate_question_cards`: the single pass from an empty seen set; its properties are DedupKeeps, DedupUnique, DedupIsSubsequence, DedupMatchesReference and DedupIdempotent |
| Locator.SelectorTier | src/cert_examtopics_quiz/cli.py:588-593 | the first selector with a non-empty result supplies all cards, with no union; the tier is empty only when every selector is |
| Locator.FallbackHeaderReduces | src/cert_examtopics_quiz/extractor/scraper.py:234-236 | the div fallback's condition is equivalent to "stripped text starts with `Question #`", since the second disjunct then always holds |
| Locator.FallbackHeader | src/cert_examtopics_quiz/extractor/scraper.py:234-236 | the div fallback's test as written: stripped text starting with `Question #`, and containing `Topic` or having `Question #` in its first 20 characters; FallbackHeaderReduces simplifies it |
| Locator.HeaderDivs | src/cert_examtopics_quiz/cli.py:596-605 | the fallback keeps, in order, exactly the divs whose stripped text starts with `Question #` |
| Locator.ParentsFrom | src/cert_examtopics_quiz/cli.py:628-633 | the parent scan extends its accumulator, adds every contributing element's parent, adds nothing else, and never adds a parent twice |
| Locator.NumberedParents | src/cert_examtopics_quiz/cli.py:607-633 | the numbered-token tier holds exactly the div/section/article parents of the div/section/article elements whose single string carries a numbering token, each parent once |
| Locator.CliCandidates | src/cert_examtopics_quiz/cli.py:588-633 | the text fallback is used only when all eight selectors are empty, and the numbered-token tier only when the fallback is empty too |
| Locator.LocateCli | src/cert_examtopics_quiz/cli.py:566-638 | the located cards are the deduplicated output of the tier that decided |
| Locator.ScraperCandidates | src/cert_examtopics_quiz/extractor/scraper.py:211-237 | the scraper uses the first non-empty of its six selectors, else the `Question #` fallback, and has no third tier |
| Locator.LocateScraper | src/cert_examtopics_quiz/extractor/scraper.py:211-271 | the scraper's cards are the deduplicated output of the deciding tier, and empty when no selector matched and no div starts with `Question #` |
| Locator.ScraperAgreesWithCli | src/cert_examtopics_quiz/extractor/scraper.py:211-237 | when the CLI's two extra selectors are empty, scraper and CLI locate the same cards whenever one of the first two tiers decides; otherwise the scraper finds none |
| Pages.CollectUrls | src/cert_examtopics_quiz/extractor/scraper.py:173-180 | the URL loop extends its list, adds the joined URL of every accepted link, adds nothing else, and never adds a URL twice |
| Pages.PaginationHref | src/cert_examtopics_quiz/extractor/scraper.py:176-177 | a pagination link is followed when its href is non-empty and neither `#` nor `javascript:void(0)`; PlaceholdersSkipped states the effect |
| Pages.NumericLink | src/cert_examtopics_quiz/extractor/scraper.py:186-190 | a page-number link has all-digit, non-empty stripped text and a non-empty href; ExamPages states where such links count |
| Pages.ExamPages | src/cert_examtopics_quiz/extractor/scraper.py:155-196 | the pages are strictly sorted and contain the exam URL; they hold exactly the exam URL, pagination URLs, and numeric-link URLs when pagination added nothing |
| Pages.PlaceholdersSkipped | src/cert_examtopics_quiz/extractor/scraper.py:177 | pagination made only of `#` and `javascript:void(0)` links gives the same pages as no pagination |
| StringSort.SortedSet | src/cert_examtopics_quiz/extractor/scraper.py:196 | `sorted(set(xs))` is strictly increasing and has exactly the members of xs |
| StringSort.StrictlySortedUnique | src/cert_examtopics_quiz/extractor/scraper.py:196 | two strictly sorted lists with the same members are equal, so the page order does not depend on discovery order |
| Extractors.FirstLongest | src/cert_examtopics_quiz/extractor/parser.py:312-316 | the chosen paragraph is at least as long as every paragraph and strictly longer than every earlier one |
| Extractors.QuestionText | src/cert_examtopics_quiz/extractor/parser.py:296-318 | the first selector hit gives the text; with no hit, the first longest paragraph does; the text is absent only when there is no hit and no paragraph |
| Extractors.ElementChoice | src/cert_examtopics_quiz/extractor/parser.py:347-361 | an element's choice takes its first character as the letter if that is one of A-D and "A" otherwise, takes as text everything after the first two characters with surrounding whitespace stripped (so no longer than the element's minus two), and carries no correct or most-voted mark |
| Extractors.ElementChoiceRoundTrip | src/cert_examtopics_quiz/extractor/parser.py:347-361 | an element reading `L.text`, with a letter L in A-D and already-stripped text, yields exactly the choice (L, text) |
| Extractors.ElementChoices | src/cert_examtopics_quiz/extractor/parser.py:346-361 | element choices are unmarked and lettered A-D, and there are none exactly when every element's stripped text has at most two characters |
| Extractors.ElementChoicesSpec | src/cert_examtopics_quiz/extractor/parser.py:346-361 | the element choices are, one for one and in order, the choices of the elements whose stripped text is longer than two characters, and of no others |
| Extractors.ElementChoicesKeeps | src/cert_examtopics_quiz/extractor/parser.py:347-349 | every element longer than two characters contributes its choice |
| Extractors.SpaceRunEnd | src/cert_examtopics_quiz/extractor/parser.py:334 | `\s*` reaches the end of the whitespace run: everything before the end is whitespace, and the run stops at a non-space or at the end of text |
| Extractors.LineEnd | src/cert_examtopics_quiz/extractor/parser.py:334 | `[^\n]+` runs up to the next newline or the end of text and contains no newline |
| Extractors.LastNonNewline | src/cert_examtopics_quiz/extractor/parser.py:334 | finds the last non-newline position in a range, which is where the backtracking `\s*` gives up whitespace, or reports that the range is all newlines |
| Extractors.MatchHere | src/cert_examtopics_quiz/extractor/parser.py:334 | `[A-D]\.\s*[^\n]+` matches at the start of a string exactly when some group split has the pattern's shape, and the match found is the greedy one |
| Extractors.ShapeStartsGroup | src/cert_examtopics_quiz/extractor/parser.py:334 | every match's text group starts after the `X.` prefix and at a non-newline character |
| Extractors.ScanChoices | src/cert_examtopics_quiz/extractor/parser.py:329-345 | the regex fallback finds no choice exactly when the pattern matches nowhere; every choice found is lettered A-D and unmarked |
| Extractors.ScanFirstMatch | src/cert_examtopics_quiz/extractor/parser.py:334-345 | `re.findall` on any text: if i is the leftmost position where the pattern matches, the first choice is that match's letter and stripped group 2, and the scan resumes right after the match |
| Extractors.ScanNoMatch | src/cert_examtopics_quiz/extractor/parser.py:334-345 | with no match at any position the scan finds no choice |
| Extractors.RenderedLineMatch | src/cert_examtopics_quiz/extractor/parser.py:334 | a line `L. text` followed by a newline matches with letter L and text group exactly `text` |
| Extractors.ScanSkipsNewline | src/cert_examtopics_quiz/extractor/parser.py:334 | a leading newline cannot start a match, so the scan resumes after it |
| Extractors.ScanRenderRoundTrip | src/cert_examtopics_quiz/extractor/parser.py:329-345 | scanning choices written one per line as `L. text` gives back exactly those choices in order, since matches do not overlap and go left to right |
| Extractors.LineEndAt | src/cert_examtopics_quiz/extractor/parser.py:334 | the text group ends at the first newline after its start |
| Extractors.Choices | src/cert_examtopics_quiz/extractor/parser.py:320-363 | with choice elements present only they are used, and the regex scan is used otherwise; either way choices are lettered A-D and start unmarked |
| Extractors.CorrectAnswer | src/cert_examtopics_quiz/extractor/parser.py:365-382 | the answer is the first character of the first hit starting with A-D, else "A"; it is always one letter in A-D |
| Extractors.Topic | src/cert_examtopics_quiz/extractor/parser.py:384-402 | the topic is the first non-empty hit shorter than 100 characters, and empty exactly when there is none |
| Extractors.Explanation | src/cert_examtopics_quiz/extractor/parser.py:404-419 | the explanation is the first hit's text even when empty, and "" when nothing matched |
| Parser.QuestionId | src/cert_examtopics_quiz/extractor/parser.py:229 | a generated question id always starts with `question_` |
| Parser.ParseTraditional | src/cert_examtopics_quiz/extractor/parser.py:223-270 | the traditional parse fails exactly when the number is absent or 0, the text is absent or empty, or no choice is found; on success the id is `question_<n>`, the topic defaults to "General" and the voting data is the placeholder |
| Parser.ZeroNumberedCardRejected | src/cert_examtopics_quiz/extractor/parser.py:225-227 | a card headed `Question #0` is rejected, because 0 is falsy |
| Parser.MarkCorrect | src/cert_examtopics_quiz/extractor/parser.py:194-195 | every choice is marked correct iff its letter is the correct answer, with letters and texts unchanged |
| Parser.Validate | src/cert_examtopics_quiz/extractor/parser.py:184-204 | the id is rewritten only when it lacks the `question_` prefix; correctness marks agree with the answer; voting data becomes the placeholder exactly when it has no votes; all other fields are unchanged |
| Parser.ValidateIdempotent | src/cert_examtopics_quiz/extractor/parser.py:172-208 | validating a validated question changes nothing |
| Parser.RetryFrom | src/cert_examtopics_quiz/extractor/parser.py:110-125 | the remaining attempts return the first non-raising outcome; each failed non-final attempt k sleeps 2^k seconds; there are at most `max_retries` invocations; all failures give None |
| Parser.Retry | src/cert_examtopics_quiz/extractor/parser.py:107-125 | with no LLM nothing is invoked; otherwise the result comes from the first attempt that does not raise; invocations are at most `max_retries` and sleeps one fewer |
| Parser.ExistsFirstReturn | src/cert_examtopics_quiz/extractor/parser.py:110-120 | unless every attempt raises, there is a first attempt that returns |
| Parser.AdoptLlmQuestion | src/cert_examtopics_quiz/extractor/parser.py:149-159 | an LLM question gets the card's source URL, page and timestamp as metadata, is validated, and so has an id starting with `question_` |
| Parser.ParseQuestionCard | src/cert_examtopics_quiz/extractor/parser.py:140-166 | the LLM is consulted only with structured output on and an LLM present; a successful LLM result is adopted; otherwise the traditional parse runs only when the fallback flag is set, else None |
| Parser.TraditionalDiscussion | src/cert_examtopics_quiz/extractor/parser.py:476-497 | one comment per comment element, ids `comment_1..n`, content a prefix of the stripped text of at most 500 characters, and `total_comments` equal to the number of comments |
| Parser.CommentIdsDistinct | src/cert_examtopics_quiz/extractor/parser.py:480-482 | the comment ids are pairwise distinct |
| Parser.ParseDiscussion | src/cert_examtopics_quiz/extractor/parser.py:443-463 | a missing modal gives None; otherwise a discussion for the given question always comes back, from the LLM if it answered, else from the traditional parse, without consulting the fallback flag |
| Storage.ReplaceInvalid | src/cert_examtopics_quiz/extractor/storage.py:48 | the regex pass keeps the length and leaves none of `< > : " / \ \| ? *`: each of them becomes `_`, and every other character stays in its place |
| Storage.ReplaceInvalidFixedIff | src/cert_examtopics_quiz/extractor/storage.py:48 | the regex pass changes a name exactly when the name holds one of the invalid characters |
| Storage.ReplaceChar | src/cert_examtopics_quiz/extractor/storage.py:50 | `str.replace(c, "_")` keeps the length, leaves no c behind (for c other than `_`), turns each c into `_` and keeps every other character in its place |
| Storage.SeparatorPassIsNoOp | src/cert_examtopics_quiz/extractor/storage.py:48-50 | the separate `/` and `\` replacements change nothing after the regex pass |
| Storage.Sanitize | src/cert_examtopics_quiz/extractor/storage.py:38-57 | the sanitised name is never empty and holds no invalid character; empty input gives "unknown"; otherwise the length is min(len, 200) and valid characters keep their places |
| Storage.SanitizeIdempotent | src/cert_examtopics_quiz/extractor/storage.py:38-57 | sanitising a sanitised name changes nothing |
| Storage.SanitizeKeepsCleanNames | src/cert_examtopics_quiz/extractor/storage.py:48-56 | a non-empty valid name of at most 200 characters is returned unchanged |
| Storage.ZeroPad | src/cert_examtopics_quiz/extractor/storage.py:96 | zero padding to width w prepends exactly enough zeros to reach w, and never truncates |
| Storage.Format03d | src/cert_examtopics_quiz/extractor/storage.py:96 | `{n:03d}` pads a non-negative number to three digits and a negative one to a sign plus two digits |
| Storage.QuestionFilename | src/cert_examtopics_quiz/extractor/storage.py:96 | the filename is `question_`, at least three characters, then `.json` |
| Storage.FilenameRoundTrip | src/cert_examtopics_quiz/extractor/storage.py:96 | the question number can be read back from its filename |
| Storage.FilenameInjective | src/cert_examtopics_quiz/extractor/storage.py:96 | distinct question numbers get distinct filenames, so saved questions do not overwrite each other |
| ExtractLocal.Split | src/cert_examtopics_quiz/cli.py:89 | `str.split(sep)` gives at least one piece, and no piece contains the separator |
| ExtractLocal.JoinSplit | src/cert_examtopics_quiz/cli.py:89-90 | joining the pieces of a split with the separator gives back the string |
| ExtractLocal.SplitJoin | src/cert_examtopics_quiz/cli.py:89-90 | splitting a join of separator-free pieces gives back the pieces |
| ExtractLocal.PathParts | src/cert_examtopics_quiz/cli.py:89 | the path parts are non-empty and contain no `/` |
| ExtractLocal.PathPartsOfSegments | src/cert_examtopics_quiz/cli.py:89 | the parts of `/a/b/...` are exactly its segments |
| ExtractLocal.PathPartsTrailingSlash | src/cert_examtopics_quiz/cli.py:89 | a trailing `/` adds no part |
| ExtractLocal.UrlExamName | src/cert_examtopics_quiz/cli.py:88-90 | the exam name is non-empty, has no `/`, and is "exam" exactly when the path has fewer than two parts |
| ExtractLocal.UrlExamNameOfParts | src/cert_examtopics_quiz/cli.py:90 | with two or more parts the name is the last two joined by `-` |
| ExtractLocal.UrlExamNameOfSegments | src/cert_examtopics_quiz/cli.py:88-90 | the URL path `/.../vendor/exam`, with or without a trailing slash, is named `vendor-exam` |
| ExtractLocal.ShortPathsNamedExam | src/cert_examtopics_quiz/cli.py:90 | a path with a single segment is named "exam" |
| ExtractLocal.Dashed | src/cert_examtopics_quiz/cli.py:325 | every space and underscore becomes `-`, every other character stays, and none of either remains |
| ExtractLocal.DashedIdempotent | src/cert_examtopics_quiz/cli.py:325 | dashing a dashed name changes nothing |
| ExtractLocal.LocalExamName | src/cert_examtopics_quiz/cli.py:323-327 | a given exam name is kept; otherwise the file stem or the directory name is used, dashed |
| ExtractLocal.HtmlFiles | src/cert_examtopics_quiz/cli.py:283-311 | a missing path, or one that is neither a file nor a directory, exits; a file is accepted iff its lower-cased suffix is `.html` or `.htm`; a directory exits iff it has no such file, and otherwise yields its HTML files in sorted order |
| ExtractLocal.HtmlFilesOrderIsCanonical | src/cert_examtopics_quiz/cli.py:305-306 | the processing order is the unique sorted order of the directory's HTML files, whatever order the file system lists them in |
| ExtractLocal.ReadErrors | src/cert_examtopics_quiz/cli.py:373-377 | exactly the files that failed to read are reported, by their 1-based position |
| ExtractLocal.PooledCardsSplit | src/cert_examtopics_quiz/cli.py:353-371 | the card pool of a file list is the pool of its first files followed by the pool of the rest |
| ExtractLocal.PooledCards | src/cert_examtopics_quiz/cli.py:353-371 | no files pool no cards; PooledCardsMembers and PooledCardsSplit state its contents and order |
| ExtractLocal.PooledCardsMembers | src/cert_examtopics_quiz/cli.py:353-371 | a card is pooled exactly when some file that was read holds it |
| ExtractLocal.PoolAndDeduplicate | src/cert_examtopics_quiz/cli.py:353-395 | the run stops with no cards exactly when the pool is empty; otherwise the cards are the deduplicated pool, a subsequence of it |
| ExtractLocal.EarlierFilesWin | src/cert_examtopics_quiz/cli.py:353-395 | the earlier files' deduplicated cards come first, and a later file keeps only unnumbered cards and numbers the earlier files lack |
| ExtractLocal.FailedCardsAreRaises | src/cert_examtopics_quiz/cli.py:441-443 | one error is recorded per card whose loop body raised outside the parser and the storage (both catch their own errors), by its 1-based position, in order |
| ExtractLocal.StepCounts | src/cert_examtopics_quiz/cli.py:413-443 | each card adds one question when a question was parsed (whether or not its file was written), one discussion when a discussion was also parsed, and one error when the loop body raised |
| ExtractLocal.ProcessCards | src/cert_examtopics_quiz/cli.py:407-471 | the loop counts questions, discussions and errors over the cards it processes; it stops after the first card where a non-zero limit is reached; with a positive limit the count is at most the limit; success iff a question was extracted |
| ExtractLocal.RunCounts | src/cert_examtopics_quiz/cli.py:407-443 | over any run of cards, the question count is the number of cards parsed, the discussion count those parsed with a discussion, and the errors those that raised; with the cards the parser gave up on they account for every card |
| ExtractLocal.LimitReached | src/cert_examtopics_quiz/cli.py:431 | `max_questions and questions_extracted >= max_questions`, with an absent limit written as 0; NegativeLimitStopsAtFirstQuestion and ProcessCards state its effect |
| ExtractLocal.NegativeLimitStopsAtFirstQuestion | src/cert_examtopics_quiz/cli.py:431-435 | a negative limit is truthy and already reached, so the loop stops after the first saved question |
| Grouping.AddTo | src/cert_examtopics_quiz/questionnaire/loader.py:171-173 | adding under a key keeps the existing keys in place, and appends a new group for a new key |
| Grouping.AddToContents | src/cert_examtopics_quiz/questionnaire/loader.py:171-173 | adding appends the item to its key's list only, and keeps the keys distinct |
| Grouping.AddToSize | src/cert_examtopics_quiz/questionnaire/loader.py:171-173 | adding one item raises the total size by one |
| Grouping.GroupBy | src/cert_examtopics_quiz/questionnaire/loader.py:169-173 | the grouping loop never creates a key twice |
| Grouping.GroupByKeys | src/cert_examtopics_quiz/questionnaire/loader.py:169-173 | a key has a group exactly when some item has that key |
| Grouping.GroupByContents | src/cert_examtopics_quiz/questionnaire/loader.py:169-173 | each group holds exactly the items with its key, in input order, and is non-empty |
| Grouping.NoKeyNoItems | src/cert_examtopics_quiz/questionnaire/loader.py:169-173 | a key no item carries selects no items |
| Grouping.GroupSizesSum | src/cert_examtopics_quiz/questionnaire/loader.py:169-173 | the group sizes add up to the number of items: none is lost or counted twice |
| Grouping.FirstInInit | src/cert_examtopics_quiz/questionnaire/loader.py:169-173 | a key that occurs before the last item first occurs before it |
| Grouping.GroupByFirstSeen | src/cert_examtopics_quiz/questionnaire/loader.py:169-173 | the groups come in the order their keys first appear among the items, as a dict keeps insertion order |
| Engine.InitialIsValid | src/cert_examtopics_quiz/questionnaire/engine.py:20-21 | the fresh engine (no session, index 0) satisfies the engine invariant |
| Engine.ReorderEach | src/cert_examtopics_quiz/questionnaire/engine.py:48-53 | with a reordering that only shuffles choices, each question keeps its place and all its other fields, and its choices become a permutation of its own |
| Engine.CreateSession | src/cert_examtopics_quiz/questionnaire/engine.py:36-65 | a random question order with a negative count gives no session (`random.sample` raises); otherwise the session starts at index 0 with no answers and the given settings. Without random order it keeps the first `question_count` questions (Python slice semantics); with it, min(count, len) questions drawn from the input. Shuffled choices are a permutation of each question's own choices, all else kept |
| Engine.CurrentQuestion | src/cert_examtopics_quiz/questionnaire/engine.py:78-84 | `get_current_question`: the question at the index, if any; CompleteIffNoCurrentQuestion states when there is one |
| Engine.IsComplete | src/cert_examtopics_quiz/questionnaire/engine.py:206-209 | `is_quiz_complete`: the index has reached the end of the session's questions; CompleteIffNoCurrentQuestion relates it to the current question and to the answers |
| Engine.CompleteIffNoCurrentQuestion | src/cert_examtopics_quiz/questionnaire/engine.py:200-209 | under the invariant, completion coincides with there being no current question and with every question having an answer |
| Engine.SubmitAnswer | src/cert_examtopics_quiz/questionnaire/engine.py:120-165 | a submit fails and changes nothing without a session, at the end, for a letter outside A-D or not offered; otherwise it appends one answer marked correct iff the letter is the correct answer, and advances the index by one; the invariant is preserved |
| Engine.SkipQuestion | src/cert_examtopics_quiz/questionnaire/engine.py:173-198 | a skip fails and changes nothing without a current question; otherwise it appends an empty, incorrect answer and advances the index by one; the invariant is preserved |
| Engine.RunPreservesValid | src/cert_examtopics_quiz/questionnaire/engine.py:156-159 | after any sequence of submits and skips, answers still equal the index, which stays within the questions; the questions never change and earlier answers are kept |
| Engine.Run | src/cert_examtopics_quiz/questionnaire/engine.py:120-198 | a sequence of submits and skips applied in order; RunPreservesValid states what any such run keeps |
| Engine.SkipAlwaysAdvances | src/cert_examtopics_quiz/questionnaire/engine.py:173-198 | before the end a skip always succeeds and advances |
| Engine.CountCorrect | src/cert_examtopics_quiz/questionnaire/engine.py:225-227 | the number of correct answers is at most the number of answers |
| Engine.CountCorrectAll | src/cert_examtopics_quiz/questionnaire/engine.py:225-227 | every answer is counted correct exactly when all answers are correct |
| Engine.FinishQuiz | src/cert_examtopics_quiz/questionnaire/engine.py:217-250 | without a session there is no result; otherwise the totals are the question count and the correct-answer count; the score is 0 with no questions and lies between 0 and 100 under the invariant; the end time and result are recorded |
| Engine.ScoreBounds | src/cert_examtopics_quiz/questionnaire/engine.py:228-230 | a correct count no larger than the total gives a percentage between 0 and 100 |
| Engine.Score | src/cert_examtopics_quiz/questionnaire/engine.py:228-230 | the percentage of correct answers, 0 for an empty quiz; ScoreBounds and PerfectScore state its range and its maximum |
| Engine.PerfectScore | src/cert_examtopics_quiz/questionnaire/engine.py:228-230 | a completed quiz with every answer correct scores 100 |
| Engine.GetQuestionResult | src/cert_examtopics_quiz/questionnaire/engine.py:261-280 | `get_question_result` for a non-negative index: the question, its answer, the correct letter, the verdict and the explanation; ResultsOfAnsweredQuestions states which questions have one |
| Engine.ResultsOfAnsweredQuestions | src/cert_examtopics_quiz/questionnaire/engine.py:264-268 | under the invariant, exactly the answered questions have results, and a correct result means the chosen letter was the correct answer |
| Engine.CountCorrectResults | src/cert_examtopics_quiz/questionnaire/engine.py:311-312 | the per-topic correct count is the number of that topic's results marked correct, so never more than the results counted |
| Engine.Performance | src/cert_examtopics_quiz/questionnaire/engine.py:317-323 | the correct/total tally of each topic group; DetailedTopics (both counts of each topic) and SumTotalsOfPerformance (the totals' sum) state what the tallies count |
| Engine.DetailedResults | src/cert_examtopics_quiz/questionnaire/engine.py:288-323 | there are detailed results only for a finished session; they list every available question result, in order |
| Engine.DetailedTopics | src/cert_examtopics_quiz/questionnaire/engine.py:302-323 | topics are distinct and non-empty (empty counts as "General"); each topic's total is its number of results and its correct count the number of those marked correct, so correct ≤ total; totals sum to the number of results |
| Engine.DetailedTopicsOrder | src/cert_examtopics_quiz/questionnaire/engine.py:302-318 | the topic tally lists the topics in the order they first appear among the question results |
| Engine.SumTotalsOfPerformance | src/cert_examtopics_quiz/questionnaire/engine.py:317-323 | the topic totals add up to the grouped results |
| Loader.LoadQuestions | src/cert_examtopics_quiz/questionnaire/loader.py:53-63 | storage is read exactly when caching is off or the exam is not cached; the questions are the stored ones after a read and the cached ones otherwise; with caching on the cache then holds the returned list for the exam; no other exam's entry changes, and with caching off the cache is untouched |
| Loader.SecondLoadIsCached | src/cert_examtopics_quiz/questionnaire/loader.py:53-55 | with caching on, a second load returns the first load's questions without reading storage |
| Loader.ClearCache | src/cert_examtopics_quiz/questionnaire/loader.py:279-284 | clearing without a name empties the cache; clearing a name removes only that entry |
| Loader.LoadAfterClear | src/cert_examtopics_quiz/questionnaire/loader.py:273-284 | after clearing one exam, loading it reads storage again while other exams still come from the cache |
| Loader.FilterQuestions | src/cert_examtopics_quiz/questionnaire/loader.py:85-118 | the filtered questions are an order-preserving subsequence, each meeting every supplied criterion |
| Loader.FilterPassesCompose | src/cert_examtopics_quiz/questionnaire/loader.py:85-118 | the four successive criterion passes equal one pass with their conjunction |
| Loader.FilterQuestionsSpec | src/cert_examtopics_quiz/questionnaire/loader.py:85-118 | filtering keeps exactly the questions meeting all criteria, in order; with no criteria it returns the input |
| Loader.InsertByNumber | src/cert_examtopics_quiz/questionnaire/loader.py:152 | inserting into a number-sorted list keeps it sorted and adds only the new question |
| Loader.SortByNumber | src/cert_examtopics_quiz/questionnaire/loader.py:152 | sorting by number gives a list ordered by number, of the same length |
| Loader.InsertStable | src/cert_examtopics_quiz/questionnaire/loader.py:152 | insertion places a question after those with the same number |
| Loader.SortStable | src/cert_examtopics_quiz/questionnaire/loader.py:152 | the sort is stable: questions sharing a number keep their input order |
| Loader.SortPermutes | src/cert_examtopics_quiz/questionnaire/loader.py:152 | the sort is a permutation of its input |
| Loader.InsertPermutes | src/cert_examtopics_quiz/questionnaire/loader.py:152 | insertion adds exactly the inserted question to the multiset |
| Loader.SelectQuestions | src/cert_examtopics_quiz/questionnaire/loader.py:138-155 | empty input gives none; otherwise the first `count` questions (Python slice semantics) of the stable sort by number |
| Loader.SortGroups | src/cert_examtopics_quiz/questionnaire/loader.py:176-177 | every group keeps its key and place, and its list becomes a number-ordered permutation of itself in which questions sharing a number keep their order |
| Loader.SortGroupsSize | src/cert_examtopics_quiz/questionnaire/loader.py:176-177 | sorting inside groups keeps the total size |
| Loader.QuestionsByTopic | src/cert_examtopics_quiz/questionnaire/loader.py:166-180 | `get_questions_by_topic`: the groups of the grouping loop, in the same order and with the same keys; QuestionsByTopicGroup, QuestionsByTopicSpec and QuestionsByTopicOrder state their contents and order |
| Loader.QuestionsByTopicOrder | src/cert_examtopics_quiz/questionnaire/loader.py:169-173 | the topic groups come in the order their topics first appear among the questions |
| Loader.QuestionsByTopicGroup | src/cert_examtopics_quiz/questionnaire/loader.py:169-177 | each topic group is non-empty-keyed and holds exactly the questions of that topic, sorted stably by number |
| Loader.QuestionsByTopicSpec | src/cert_examtopics_quiz/questionnaire/loader.py:169-177 | topics are distinct, a topic has a group iff some question has it, and group sizes sum to the number of questions |
| Loader.DifficultyKey | src/cert_examtopics_quiz/questionnaire/loader.py:194 | the difficulty counted is never empty: an empty difficulty counts as "Unknown" |
| Loader.DifficultiesSpec | src/cert_examtopics_quiz/questionnaire/loader.py:191-197 | difficulties are distinct and non-empty; each count is the positive number of questions with that difficulty; counts sum to the number of questions |
| Loader.QuestionDifficulties | src/cert_examtopics_quiz/questionnaire/loader.py:191-197 | `get_question_difficulties`: one count per difficulty group; its contract is DifficultiesSpec and DifficultiesOrder |
| Loader.DifficultiesOrder | src/cert_examtopics_quiz/questionnaire/loader.py:193-196 | the difficulty counts come in the order their levels first appear among the questions |
| Loader.CountsSum | src/cert_examtopics_quiz/questionnaire/loader.py:195-197 | the counts of the difficulty groups add up to the grouped questions |
| Loader.AnyChoiceMatches | src/cert_examtopics_quiz/questionnaire/loader.py:257-260 | the choices match iff some choice's lower-cased text contains the query |
| Loader.SearchHit | src/cert_examtopics_quiz/questionnaire/loader.py:249-268 | one iteration of the search loop, branch for branch, including the choice loop's `else` clause; SearchHitIff states it as one disjunction |
| Loader.SearchHitIff | src/cert_examtopics_quiz/questionnaire/loader.py:249-269 | a question matches iff its text does, or choice search is on and some choice does, or explanation search is on and its non-empty explanation does |
| Loader.SearchQuestions | src/cert_examtopics_quiz/questionnaire/loader.py:245-271 | the result is an order-preserving subsequence holding every matching question and only matching ones, with no duplicates from distinct input |
| Loader.EmptyQueryMatchesAll | src/cert_examtopics_quiz/questionnaire/loader.py:246-252 | the empty query matches every question |
| QuizCli.DisplayLetter | src/cert_examtopics_quiz/questionnaire/cli.py:344-347 | a choice label is never empty and never the skip or quit key |
| QuizCli.DisplayLetterShape | src/cert_examtopics_quiz/questionnaire/cli.py:344-347 | positions 0-7 are labelled A-H; from position 8 on, the label is the decimal 1-based position |
| QuizCli.DisplayLetterInjective | src/cert_examtopics_quiz/questionnaire/cli.py:344-349 | equal labels mean equal positions, so a typed label names one choice |
| QuizCli.LabelsDiffer | src/cert_examtopics_quiz/questionnaire/cli.py:344-349 | distinct positions get distinct labels |
| QuizCli.ChoiceMapping | src/cert_examtopics_quiz/questionnaire/cli.py:340-349 | the mapping sends the label of position i to choice i's own letter, and holds no other label |
| QuizCli.ValidInputs | src/cert_examtopics_quiz/questionnaire/cli.py:341-351 | the valid inputs are exactly the mapped labels plus "S" and "Q", without repeats |
| QuizCli.HandleInput | src/cert_examtopics_quiz/questionnaire/cli.py:335-378 | with no question the loop ends; "Q" ends it with nothing submitted; "S" skips; a label submits its choice's own letter; feedback appears iff enabled and says correct iff that letter is the correct answer; the engine invariant is preserved |
| QuizCli.LabelAcceptedIffAtoD | src/cert_examtopics_quiz/questionnaire/cli.py:367-370 | typing a choice's label records an answer exactly when the choice's letter is in A-D; a choice lettered E-H can be typed but is never recorded |
| QuizCli.MostVotedDisplay | src/cert_examtopics_quiz/questionnaire/cli.py:313-322 | the vote line names the label of the first choice carrying the most voted letter, or that letter itself when no choice carries it |
| QuizCli.MostVotedRoundTrip | src/cert_examtopics_quiz/questionnaire/cli.py:313-348 | the label on the vote line maps back, through the input mapping, to the most voted letter |
| QuizCli.UnshuffledShowsOwnLetter | src/cert_examtopics_quiz/questionnaire/cli.py:313-322 | with choices in their original A, B, C... order, the vote line names the most voted letter itself |
| QuizCli.VoteLine | src/cert_examtopics_quiz/questionnaire/cli.py:306-325 | the vote line of `display_question`; its contract is VoteLineRoundTrip |
| QuizCli.VoteLineRoundTrip | src/cert_examtopics_quiz/questionnaire/cli.py:306-325 | the vote line appears exactly for a question with votes in a session showing community votes; the label it names maps back, through the input mapping, to the most voted letter when some choice carries it, and is that letter itself otherwise |
| QuizCli.ClampCount | src/cert_examtopics_quiz/questionnaire/cli.py:107-125 | with no questions there is no configuration; otherwise the count is the requested one capped at the number available |
| QuizCli.ClampedCountIsHonoured | src/cert_examtopics_quiz/questionnaire/cli.py:119-125 | a session created with a clamped, non-negative count, without random question order, gets exactly that many questions |

## Left out

- ExtractLocal.ProcessCards: has no outcome for writing a question or discussion file. `save_question` and `save_discussion` catch their own errors and return False, and the loop ignores that result (cli.py:415-416, 423-424), so a question or discussion whose write fails is still counted.
- HTTP fetching, scraper sessions, login and captcha handling, and the download script: all network I/O.
- The LLM itself, its prompts and the cloud credential checks: foreign services. Each LLM attempt is an input outcome: it raised, or it returned a value or nothing.
- BeautifulSoup parsing, CSS selection and `get_text`: a library not modelled. Selector results, flattened card text and "first matching element" results are inputs.
- Clocks and rate limiting: the LLM and scraper rate-limit waits are not modelled, nor `time_taken`, elapsed times, time limits or the quiz timer. Timestamps are opaque values. The retry loop records its back-off delays instead of sleeping.
- Randomness in `create_session` and `select_questions`: `random.sample`/`shuffle`.
  - For a randomised question order, the arrangement is an input.
  - For choice shuffling, a reordering function is an input.
  - The random branch of `select_questions` is not modelled.
- Engine.CreateSession: does not model Python object identity. The model has no counterpart for two effects:
  - with a random order and no more questions than the count, `random.shuffle` reorders the caller's own list in place (engine.py:44-46);
  - choice shuffling assigns new `choices` to the caller's Question objects (engine.py:48-53), which the loader's cache also holds, so later sessions over the cached exam start from the shuffled choices.
  The model returns the session's questions as new values and leaves its inputs unchanged. `arranged` and `reorder` are constrained only to a sample of the right size and to permutations of each question's choices; which sample or permutation is drawn is not modelled.
- Floating point:
  - the score is a `real`, with no rounding;
  - topic percentages, time statistics, vote percentages, `confidence_score` statistics and `get_voting_statistics` are not modelled.
- JSON reading and writing, directory creation, backups and integrity checks in storage: file I/O. Only the two naming functions are modelled.
- `get_progress`, `reset_session` and `validate_exam_data`: reporting helpers outside the decision logic.
- Engine.GetQuestionResult: takes a natural index, so Python's negative indexing (`questions[-1]`) is not modelled.
- ExtractLocal.UrlExamName: takes the URL's path component as given; `urlparse` is not modelled.
- Numbering.PatternNumber: reads a digit run of any length. CPython's `int()` raises ValueError for a string of more than 4300 digits (the default `sys.int_max_str_digits`), at cli.py:551 and parser.py:292. That error would escape `deduplicate_question_cards` and make the traditional parse return None; the model does not have this limit, and neither does `Dedup.Fingerprint`, which reads numbers the same way.
- Python's Unicode-aware `\d`, `\s`, `str.strip`, `str.isspace` and `.lower()`: the model works on ASCII only.
- `Path.glob` details, such as hidden files and case-sensitive patterns: a directory listing is an input, and a name globs as HTML when it ends in `.html` or `.htm`.
- KeyboardInterrupt and EOF in `handle_question_input`, the "Press Enter" pause, and all rich/typer rendering: terminal I/O.
- QuizCli.HandleInput: assumes the prompt returns one of the valid inputs exactly as listed. Rich's prompt enforces the choice list, and the labels are already upper case.
- QuizCli.ClampCount: the prompt's displayed default (`min(default_question_count, total)`) is not modelled. Only the value typed is clamped. The time-limit and other settings prompts are not modelled either.
- The page loop of the `extract` command and the `extract-local` report saving: they only chain the modelled steps with network and file I/O.
- Logging and settings loading: configuration is passed in as values.
