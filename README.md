# linkhub-crawlers in Dafny

A model of the three crawlers of the linkhub link collection. Each crawler
reads a forum board on ppomppu.co.kr and registers what it finds with the
linkhub API:

- **quiz** (`crawlers/quiz/crawler.js`) scans the coupon board for the daily
  quiz posts of six banking and point apps. It files each post under a
  category using a white-space-insensitive keyword table. It skips posts
  dated another day and reads the answer out of the post body with two
  regular expressions, the strict one tried first. It then registers a
  single text card that holds one `[category] : answer` line per category.
- **ppomppu-naverpay** (`crawlers/ppomppu-naverpay/crawler.js`) keeps the
  coupon-board posts whose title mentions 네이버페이. From each post body it
  harvests the outbound `http(s)://` URLs, without the `s.ppomppu.co.kr`
  redirector and without duplicates, in first-seen order. It registers each
  URL with the tag `NPay적립`.
- **ppomppu-jjizzle** (`crawlers/ppomppu-jjizzle/crawler.js`) searches two
  boards, phone then money, for one author's posts. It registers each new
  post with its title, a board description and a fixed thumbnail. Links
  that mention `sponsor` or `consulting` are never registered.

All three share one piece of bookkeeping. A set of already-handled links is
loaded from a history file. For each listed post there is a fixed order of
exits: no link, locally known, (jjizzle) blocked, known to the API. When
the API call throws, for any reason including a non-2xx status, the check
falls back to the local set. Then comes
the crawler's own work. A `newCrawled` flag decides whether the set is
written back.

## How the model is built

- `text.dfy`, modules `Options` and `Text`. Models the string operations the
  crawlers use. These are JavaScript's white space (the class `\s`, which is
  also what `trim` removes), `trim`, `replace(/\s+/g, '')`, `startsWith`,
  `endsWith` and `includes`.
- `links.dfy`, modules `Links` and `LinkApi`:
  - `Links` turns listing rows into posts, with `href` absolutization and a
    listing filtered by a row predicate.
  - `LinkApi` models the existence check with its fallback, the three
    registration outcomes, request bodies and loading the history file.
- `quiz_rules.dfy`, module `QuizRules`: the category table, the classifier,
  the listing prefilter, and the date in a title with the "today" rule.
- `quiz_answer.dfy`, module `QuizAnswer`: the two answer patterns and the
  clean-up of the captured text.
  - The patterns are written out as the scans a backtracking regular
    expression engine performs on them: leftmost match, greedy `\s*` giving
    back characters, the lazy capture and its look-ahead.
- `quiz_crawler.dfy`, `naverpay.dfy`, `jjizzle.dfy`: each crawler's main
  block.
  - A decision function (`…VerdictOf`) gives the exit each post takes.
    `Apply…Verdict` gives what that exit does to the state, `…Step` composes
    the two, and `…Run` folds the step over the listed posts.
  - Lemmas about `…Step` and `…Run` state the properties.
  - The main block itself is an imperative method (`QuizMain`,
    `NaverPayMain`, `JjizzleMain` with `CrawlBoard`). It keeps the source's
    local variables and early `continue`s, and its loop invariant ties those
    locals to `…Run`.
  - In the source the history is a module-level `Set` that the main block
    grows in place with `add`. The flag, the counters and (quiz) the
    collected list and found categories are locals of the main block. There
    is no object with methods. So the model has no class: the set is the
    `seen` field threaded through the run state, and the main method
    reassigns it.
- The outside world comes in as parameters, one record per post. For every
  post it holds the existence check's response (`Answered(exists)` or
  `TransportError`). It also holds whatever that crawler reads next: the
  quiz body, the naverpay anchors and per-URL registration responses, or
  the jjizzle registration response.
- Requests are recorded in the state (`checked`, `fetched`, `sent`), so "no
  existence check", "no page load" and "nothing registered" can be stated.

## Model

| member | source | states |
|---|---|---|
| Text.Trim | crawlers/quiz/crawler.js:99 | `trim()` result has no white space at either end and is no longer than its input |
| Text.TrimStart | crawlers/quiz/crawler.js:99 | the leading white space `trim` drops; its shape is stated by `Text.TrimStartShape` |
| Text.TrimEnd | crawlers/quiz/crawler.js:99 | the trailing white space `trim` drops; its shape is stated by `Text.TrimEndShape` |
| Text.TrimStartShape | crawlers/quiz/crawler.js:99 | the leading part `trim` drops is all white space, and what is left starts with a non-space character |
| Text.TrimEndShape | crawlers/quiz/crawler.js:99 | the trailing part `trim` drops is all white space, and what is left ends with a non-space character |
| Text.TrimIsInfix | crawlers/quiz/crawler.js:99 | `trim(s)` is the slice of `s` at the offset of its first non-space character, with only white space before and after it |
| Text.TrimKeepsNonSpace | crawlers/quiz/crawler.js:99 | a character that is not white space lies inside the part `trim` keeps |
| Text.TrimKeepsInfix | crawlers/ppomppu-naverpay/crawler.js:88-97 | a span whose two ends are not white space is still contained in the trimmed text |
| Text.TrimOfTrimmed | crawlers/quiz/crawler.js:178-184 | `trim` leaves a text without white space at its ends unchanged (idempotence) |
| Text.TrimEmpty | crawlers/ppomppu-jjizzle/crawler.js:99-107 | `trim(s)` is empty exactly when `s` is all white space, so a blank title is falsy after trimming |
| Text.TrimDropsFinalSpace | crawlers/quiz/crawler.js:286 | trimming a trimmed non-empty text followed by one white-space character gives back the text |
| Text.TrimKeepsNoLineBreaks | crawlers/quiz/crawler.js:181 | trimming a text without CR/LF cannot introduce one |
| Text.StripSpaces | crawlers/quiz/crawler.js:102 | `replace(/\s+/g, '')`, every white-space character removed; stated by `Text.StripSpacesOfNoSpaces`, `Text.StripSpacesConcat` and `Text.StripSpacesJoin` |
| Text.LineBreakIsSpace | crawlers/quiz/crawler.js:176 | CR and LF belong to `\s` |
| Text.StripSpacesOfNoSpaces | crawlers/quiz/crawler.js:105 | removing `\s+` from a text without white space leaves it unchanged |
| Text.StripSpacesConcat | crawlers/quiz/crawler.js:102 | removing white space distributes over concatenation |
| Text.StripSpacesJoin | crawlers/quiz/crawler.js:105 | removing white space from two space-free words joined by a space gives the two words joined |
| Links.Absolutize | crawlers/quiz/crawler.js:111-117 | a missing or empty `href` gives no link; otherwise the link starts with `https://www.ppomppu.co.kr/` and ends with the `href` |
| Links.AbsolutizeRelativeIsRooted | crawlers/ppomppu-naverpay/crawler.js:89-95 | a board-relative `href` and the same path written from `/zboard/` give the same link |
| Links.AbsolutizeRootedInjective | crawlers/ppomppu-jjizzle/crawler.js:100-106 | two different root-relative `href`s never give the same link |
| Links.PostOfRow | crawlers/quiz/crawler.js:99-121 | a row's post has a trimmed title and has a link exactly when the row's `href` is non-empty; that link is on the forum's origin |
| Links.ListPosts | crawlers/quiz/crawler.js:93-124 | the listing has no more posts than rows |
| Links.ListPostsMembers | crawlers/ppomppu-naverpay/crawler.js:82-102 | a post is listed exactly when some row with a title that the filter keeps becomes that post |
| LinkApi.LoadSnapshot | crawlers/quiz/crawler.js:42-54 | the loaded set holds exactly the file's strings, and is empty when the file is missing or unreadable |
| LinkApi.ExistsRemotely | crawlers/quiz/crawler.js:57-70 | the existence check: the API's `exists`, or on any throw whether the local set holds the link; stated per crawler by `QuizTransportErrorMeansAbsent`, `NaverPayTransportErrorMeansAbsent` and `JjizzleTransportErrorMeansAbsent` |
| QuizRules.AllCategoriesCount | crawlers/quiz/crawler.js:17-24 | there are exactly six categories |
| QuizRules.MatchesIsClassifierTest | crawlers/quiz/crawler.js:101-108 | a title matches a category's keywords once both sides lose their white space exactly when the classifier's literal for that category occurs in the white-space-free title |
| QuizRules.MatchesKbPay | crawlers/quiz/crawler.js:18 | the table keyword `[KB Pay]` and the classifier literal `[KBPay]` accept the same titles |
| QuizRules.MatchesKbStarBanking | crawlers/quiz/crawler.js:19 | the same for `[KB스타뱅킹] 스타퀴즈` |
| QuizRules.MatchesShinhanSuperSol | crawlers/quiz/crawler.js:20 | the same for `[신한슈퍼SOL]` |
| QuizRules.MatchesShinhanSolBaseball | crawlers/quiz/crawler.js:21 | the same for `[신한쏠] 야구상식` |
| QuizRules.MatchesShinhanSolQuizPangPang | crawlers/quiz/crawler.js:22 | the same for `[신한플레이] 퀴즈팡팡` |
| QuizRules.MatchesHpoint | crawlers/quiz/crawler.js:23 | the same for the three Hpoint spellings |
| QuizRules.MatchesSpaced | crawlers/quiz/crawler.js:105-106 | a keyword made of two space-free words and one space matches exactly when the two words joined occur in the white-space-free title |
| QuizRules.MatchesUnspaced | crawlers/quiz/crawler.js:105-106 | keywords without white space match exactly when they occur in the white-space-free title |
| QuizRules.IsQuizPost | crawlers/quiz/crawler.js:102-108 | the listing prefilter: some category's keyword, without white space, occurs in the white-space-free title; stated by `QuizRules.IsQuizPostIffCategorized` |
| QuizRules.KeepsRow | crawlers/quiz/crawler.js:96-110 | a row is kept when it has a title element and its trimmed text passes the prefilter; stated by `QuizRules.ListedPostsAreCategorized` |
| QuizRules.CategorizeQuiz | crawlers/quiz/crawler.js:226-244 | a category is returned only when its literal occurs in the white-space-free title, and none only when no literal occurs |
| QuizRules.CategorizeQuizFirstTest | crawlers/quiz/crawler.js:226-244 | the classifier returns the first category, in its fixed order, whose literal occurs in the white-space-free title, and nothing when none occurs |
| QuizRules.CategorizeQuizFirstMatch | crawlers/quiz/crawler.js:226-244 | the same in terms of the keyword table: the first matching category, or nothing only when no category matches |
| QuizRules.IsQuizPostIffCategorized | crawlers/quiz/crawler.js:101-108 | the listing prefilter keeps a title exactly when the classifier gives it a category |
| QuizRules.ListedPostsAreCategorized | crawlers/quiz/crawler.js:93-124 | every listed quiz post has a trimmed title the classifier accepts, so the "no category" exit of the main loop is never taken for a listed post |
| QuizRules.NumberAt | crawlers/quiz/crawler.js:378-383 | `parseInt` of one or two digits is at most 99, and of one digit is its value |
| QuizRules.DigitsThen | crawlers/quiz/crawler.js:373 | a match of `\d{1,2}` followed by a fixed non-digit is one or two digits and then that character; one digit followed by that character always matches |
| QuizRules.TrailingDigits | crawlers/quiz/crawler.js:373 | a final `\d{1,2}` takes one or two digits, fails exactly when no digit is there, and stops after one only when no second digit follows |
| QuizRules.SlashDateAt | crawlers/quiz/crawler.js:376-379 | a `M/D` match gives a month and day of at most 99 |
| QuizRules.KoreanDateAt | crawlers/quiz/crawler.js:380-383 | a `M월D일` match gives a month and day of at most 99 |
| QuizRules.DateAt | crawlers/quiz/crawler.js:373 | a match of the date pattern starts at a digit |
| QuizRules.FirstDateFrom | crawlers/quiz/crawler.js:373 | the position found is the leftmost one where the date pattern matches, and none is found only when it matches nowhere |
| QuizRules.TitleDate | crawlers/quiz/crawler.js:373-384 | the title's date, when there is one, has a month and day of at most 99 |
| QuizRules.NoDigitsPasses | crawlers/quiz/crawler.js:374 | a title without digits has no date and always passes the date rule |
| QuizRules.DatePassesIffToday | crawlers/quiz/crawler.js:386-395 | a title whose first date has a non-zero month and day passes exactly when that date is today |
| QuizRules.DatePasses | crawlers/quiz/crawler.js:373-397 | the date rule: no date, or a zero month or day, passes; otherwise the date must be today; stated by `QuizRules.NoDigitsPasses` and `QuizRules.DatePassesIffToday` |
| QuizRules.SlashDateOfTitle | crawlers/quiz/crawler.js:376-379 | in a title whose first digits are a one-digit `m/d` followed by a non-digit or the end, the date is month `m`, day `d` |
| QuizRules.KoreanDateOfTitle | crawlers/quiz/crawler.js:380-383 | in a title whose first digits are `mm월dd일`, the date is the two two-digit numbers |
| QuizRules.SampleTitleNinth | crawlers/quiz/crawler.js:373-379 | the title `[Hpoint] 8/9 퀴즈` is dated August 9th |
| QuizRules.SampleTitleTenth | crawlers/quiz/crawler.js:373-379 | the title `[Hpoint] 8/10 퀴즈` is dated August 10th: both digits of the day are read |
| QuizRules.DatePassesOnSampleTitles | crawlers/quiz/crawler.js:373-397 | on August 10th, `[Hpoint] 8/9 퀴즈` is skipped and `[Hpoint] 8/10 퀴즈` passes |
| QuizRules.HpointTitleClassified | crawlers/quiz/crawler.js:226-244 | the bare title `[Hpoint]` is classified Hpoint (none of the earlier literals occurs in it) and, having no date, passes on any day |
| QuizAnswer.SpaceRun | crawlers/quiz/crawler.js:195 | the run of white space at a position: every character in it is white space and the next one is not |
| QuizAnswer.StopsAtLineBreak | crawlers/quiz/crawler.js:195 | the look-ahead holds in front of CR or LF |
| QuizAnswer.CaptureEnd | crawlers/quiz/crawler.js:195 | the lazy capture ends at the first position where the look-ahead holds, and never takes a CR or LF |
| QuizAnswer.LastUsable | crawlers/quiz/crawler.js:195 | where a greedy `\s*` gives back to: the last position in range that is not CR or LF, and none only when every position is CR or LF |
| QuizAnswer.CaptureStart | crawlers/quiz/crawler.js:195 | where the capture starts after `\s*:?\s*`: what lies before it has that shape and its first character is not CR or LF; there is no start exactly when only CR and LF follow |
| QuizAnswer.MatchAt | crawlers/quiz/crawler.js:195 | a match at a position starts with `정답` and captures a non-empty text without CR or LF |
| QuizAnswer.HitMeansMatch | crawlers/quiz/crawler.js:195 | the fallback pattern matches at a position exactly when `정답` is there and some character after it is neither CR nor LF |
| QuizAnswer.FirstMatchFrom | crawlers/quiz/crawler.js:195 | the position found is the leftmost one where the fallback pattern matches, and none is found only when it matches nowhere |
| QuizAnswer.Fallback | crawlers/quiz/crawler.js:195-197 | the fallback pattern's capture is non-empty and has no CR or LF |
| QuizAnswer.FallbackMatchesSomewhere | crawlers/quiz/crawler.js:195-196 | the fallback pattern matches the body exactly when it matches at some position |
| QuizAnswer.HeaderEnd | crawlers/quiz/crawler.js:176 | the `정답\s*입니다` header at a position ends after it |
| QuizAnswer.FirstStrictFrom | crawlers/quiz/crawler.js:176 | the position found is the leftmost one where the strict pattern matches, and none is found only when it matches nowhere |
| QuizAnswer.Strict | crawlers/quiz/crawler.js:176-178 | the strict pattern's capture is non-empty and has no CR or LF |
| QuizAnswer.StrictImpliesFallback | crawlers/quiz/crawler.js:176-196 | whenever the strict pattern matches the fallback pattern matches too, so the fallback only decides bodies without a strict match |
| QuizAnswer.CutAtLineBreak | crawlers/quiz/crawler.js:181 | `split(/[\n\r]/)[0]` is the longest prefix without CR or LF: it is a prefix, it is followed by CR or LF unless it is the whole text, and a text without line breaks is kept whole |
| QuizAnswer.StripCopula | crawlers/quiz/crawler.js:184 | removing `(?:입니다\|입니다\.\|\.)$` cuts exactly one of those endings, or nothing; `입니다.` wins over `.` |
| QuizAnswer.Tidy | crawlers/quiz/crawler.js:178-184 | the cleaned-up answer has no white space at its ends and no CR or LF |
| QuizAnswer.AppendTrimmed | crawlers/quiz/crawler.js:178-184 | a trimmed one-line text followed by a text ending in a non-space character is still trimmed and one line |
| QuizAnswer.TidyOfTrimmedLine | crawlers/quiz/crawler.js:178-184 | on a trimmed one-line capture the clean-up only removes the ending and trims |
| QuizAnswer.StripCopulaOfCopula | crawlers/quiz/crawler.js:184 | a final `입니다` or `입니다.` is removed as a whole |
| QuizAnswer.StripCopulaOfFullStop | crawlers/quiz/crawler.js:184 | a final `.` is removed alone, unless `입니다` precedes it, in which case `입니다.` goes |
| QuizAnswer.TidyDropsCopula | crawlers/quiz/crawler.js:178-184 | an answer followed by `입니다` or `입니다.` cleans up to the answer |
| QuizAnswer.TidyDropsFullStop | crawlers/quiz/crawler.js:178-184 | an answer followed by `.` cleans up to the answer, or without its `입니다` when it ends in one |
| QuizAnswer.ExtractAnswer | crawlers/quiz/crawler.js:165-213 | an extracted answer is trimmed and has no CR or LF |
| QuizAnswer.ExtractAnswerExists | crawlers/quiz/crawler.js:165-213 | there is an answer exactly when the body is present, non-empty and the fallback pattern matches somewhere in it |
| QuizAnswer.ExtractPrefersStrict | crawlers/quiz/crawler.js:176-192 | when the strict pattern matches, its cleaned-up capture is the answer |
| QuizAnswer.ExtractFallsBack | crawlers/quiz/crawler.js:194-213 | when it does not, the fallback pattern's cleaned-up capture is the answer, and there is none when that pattern fails too |
| QuizAnswer.FallbackOnHeader | crawlers/quiz/crawler.js:195 | on a body opening with `정답입니다.` the fallback pattern captures `입니다` |
| QuizAnswer.WordCharacterDoesNotStop | crawlers/quiz/crawler.js:195 | the look-ahead fails in front of a character that is neither white space nor `.`, `!`, `?` |
| QuizAnswer.CaptureStartAfterColon | crawlers/quiz/crawler.js:195 | after `: ` the capture starts at the next character when that is not white space |
| QuizAnswer.CaptureEndAtLineFeed | crawlers/quiz/crawler.js:195 | a run of characters that are neither white space nor sentence ends, ended by LF, is captured up to the LF |
| QuizAnswer.FirstMatchFromIs | crawlers/quiz/crawler.js:195 | the leftmost match is the position where the pattern holds and holds nowhere before |
| QuizAnswer.FirstStrictFromIs | crawlers/quiz/crawler.js:176 | the same for the strict pattern |
| QuizAnswer.CaptureAfterColon | crawlers/quiz/crawler.js:195 | after ` 정답: ` at any position, a word without white space or sentence ends, ended by LF, is captured whole, whatever follows |
| QuizAnswer.StrictAfterHeader | crawlers/quiz/crawler.js:176 | on a body with `정답입니다. 정답: answer` and LF at some position and no `정` before it, the strict pattern captures the answer, whatever follows |
| QuizAnswer.FirstMatchAfterHeader | crawlers/quiz/crawler.js:176 | after the header sentence the strict pattern's lazy gap reaches the `정답:` that follows it |
| QuizAnswer.TidyKeepsPlainWord | crawlers/quiz/crawler.js:178-184 | a space-free answer without sentence ends or a final `입니다` is left alone by the clean-up |
| QuizAnswer.TidyOfBareCopula | crawlers/quiz/crawler.js:184 | a capture that is only `입니다` cleans up to the empty answer |
| QuizAnswer.FallbackStopsAtHeader | crawlers/quiz/crawler.js:195 | on `정답입니다. 정답: answer` and LF the fallback pattern alone captures `입니다` |
| QuizAnswer.StrictFindsAnswer | crawlers/quiz/crawler.js:176 | text without `정`, then `정답입니다. 정답: answer` and LF, then any text: the strict pattern captures the answer |
| QuizAnswer.ExtractAnswerWithin | crawlers/quiz/crawler.js:165-213 | on such a body the extracted answer is that word |
| QuizAnswer.StrictReachesTheAnswer | crawlers/quiz/crawler.js:175-213 | why the strict pattern is tried first: on that body the fallback alone cleans up to nothing, while the extraction yields the answer |
| QuizAnswer.ExtractAnswerOfSampleBody | crawlers/quiz/crawler.js:165-213 | on `...정답입니다. 정답: 사과`, LF, `다음 문제는...` the answer is `사과` |
| QuizCrawler.CollectQuizInfo | crawlers/quiz/crawler.js:247-256 | the record keeps the category, answer, title and link it was given |
| QuizCrawler.CollectQuizInfoDisplay | crawlers/quiz/crawler.js:248 | the display text is the category key, ` : ` and the answer |
| QuizCrawler.QuizVerdictOf | crawlers/quiz/crawler.js:337-433 | the exit is "no link" exactly without a link and "local duplicate" exactly for a known link; a collected answer is for a category not yet found and is a non-empty trimmed line |
| QuizCrawler.ApplyQuizVerdict | crawlers/quiz/crawler.js:337-433 | what each exit does to the state; stated by `QuizCrawler.QuizStepSeen`, `QuizCrawler.ApplyOtherVerdict` and the one-exit lemmas below |
| QuizCrawler.QuizStep | crawlers/quiz/crawler.js:337-435 | one iteration of the main loop; stated by the one-exit lemmas below and `QuizCrawler.QuizStepKeepsInv` |
| QuizCrawler.QuizRun | crawlers/quiz/crawler.js:337-435 | the main loop over the listed posts; stated by `QuizCrawler.QuizRunKeepsInv` and `QuizCrawler.QuizMain` |
| QuizCrawler.QuizStepSeen | crawlers/quiz/crawler.js:341-427 | the link joins the history exactly when the API already has it or its answer was collected |
| QuizCrawler.QuizLocalDuplicateIsQuiet | crawlers/quiz/crawler.js:341-345 | a locally known link only counts a local skip: no check, no page load, no other change |
| QuizCrawler.QuizTransportErrorMeansAbsent | crawlers/quiz/crawler.js:57-70 | after the local check has passed, an existence check that throws acts exactly like "does not exist" |
| QuizCrawler.QuizRemoteDuplicate | crawlers/quiz/crawler.js:348-355 | a link the API has is checked, counted as a DB skip and remembered, and nothing else changes |
| QuizCrawler.QuizCategoryAnsweredOnce | crawlers/quiz/crawler.js:367-370 | a post of a category already answered is checked but its page is not loaded and nothing else changes |
| QuizCrawler.QuizWrongDateSkipped | crawlers/quiz/crawler.js:372-397 | a post dated another day is checked but its page is not loaded and the history is unchanged |
| QuizCrawler.QuizNoAnswerNotRemembered | crawlers/quiz/crawler.js:430-433 | a page without a usable answer is read but the link is not remembered |
| QuizCrawler.QuizCollectedMeans | crawlers/quiz/crawler.js:337-433 | an answer is collected exactly when the post passes every exit in order and its body yields a non-empty answer; the category and answer are the classifier's and the extraction's |
| QuizCrawler.CategorizedNeverUnmatched | crawlers/quiz/crawler.js:358-364 | a post the classifier accepts never takes the "no category" exit |
| QuizCrawler.ListedRunNeverUnmatched | crawlers/quiz/crawler.js:93-124 | over the posts the listing yields, no iteration of the main loop takes the "no category" exit (lines 358-364 are dead for listed posts) |
| QuizCrawler.CategoriesOf | crawlers/quiz/crawler.js:421 | a category is in the set exactly when some collected quiz has it |
| QuizCrawler.InitialQuizInv | crawlers/quiz/crawler.js:317-323 | the run invariant holds before the first post |
| QuizCrawler.ApplyOtherVerdict | crawlers/quiz/crawler.js:338-433 | every exit except "collected" leaves the collected list, categories, flag and counters alone and only adds to the history |
| QuizCrawler.InvKeptByOther | crawlers/quiz/crawler.js:338-433 | such an exit keeps the run invariant |
| QuizCrawler.InvKeptByCollect | crawlers/quiz/crawler.js:420-427 | collecting a quiz of a new category with a non-empty trimmed one-line answer keeps the run invariant |
| QuizCrawler.ApplyQuizVerdictKeepsInv | crawlers/quiz/crawler.js:337-435 | every exit keeps the run invariant and never removes a link from the history |
| QuizCrawler.QuizStepKeepsInv | crawlers/quiz/crawler.js:337-435 | one iteration keeps the run invariant and the history only grows |
| QuizCrawler.QuizRunKeepsInv | crawlers/quiz/crawler.js:337-435 | the whole loop keeps the run invariant (pairwise distinct categories, `found` is the set of collected categories, the flag is set exactly when something was collected, both counters equal the number collected, every collected answer is a non-empty trimmed line whose link is remembered) and the history only grows |
| QuizCrawler.DistinctCategoriesCount | crawlers/quiz/crawler.js:367-421 | with pairwise distinct categories, there are as many categories as collected quizzes |
| QuizCrawler.QuizCollectsAtMostSix | crawlers/quiz/crawler.js:429 | at most six quizzes are ever collected |
| QuizCrawler.DigestLine | crawlers/quiz/crawler.js:272 | a digest line starts with `[` and ends with the answer and a line feed |
| QuizCrawler.DigestText | crawlers/quiz/crawler.js:269-273 | the combined description, one line per collected quiz in order; stated by `QuizCrawler.DigestTextShape` |
| QuizCrawler.DigestTextShape | crawlers/quiz/crawler.js:271-273 | the digest starts with `[` and ends with the last quiz's line |
| QuizCrawler.DigestTrimDropsFinalLineFeed | crawlers/quiz/crawler.js:286 | trimming the digest removes only its final line feed when the last answer is non-empty and trimmed |
| QuizCrawler.TrimDropsLineFeedAfter | crawlers/quiz/crawler.js:286 | a text that does not start with white space and ends with a trimmed line and LF loses just that LF to `trim` |
| QuizCrawler.BatchOutcome | crawlers/quiz/crawler.js:294-307 | exactly one of success, failed, skipped is 1; success exactly on a 2xx, skipped exactly on a 409 |
| QuizCrawler.RegisterQuizBatch | crawlers/quiz/crawler.js:259-308 | an empty list sends nothing and reports zeros; otherwise the digest, built line by line in order and trimmed, is sent tagged `퀴즈` and the response decides the result |
| QuizCrawler.QuizMain | crawlers/quiz/crawler.js:317-457 | the main block's final state is the run of the decision procedure over the listed posts from the loaded history; the digest request and the registered count follow the collected list; the history is written back exactly when the flag is set |
| QuizCrawler.QuizRunFromFile | crawlers/quiz/crawler.js:317-457 | after a run the flag is set exactly when an answer was collected (so the file is written exactly then), at most six quizzes with distinct categories are collected, and every link from the file is still known |
| QuizCrawler.FreshQuizCollected | crawlers/quiz/crawler.js:341-427 | a new link of a category not yet answered, dated today, whose body has an answer, is checked, read, collected and remembered, and the flag is set |
| QuizCrawler.QuizAlreadyFoundForgets | crawlers/quiz/crawler.js:366-370 | a new link of a category already answered is checked and skipped, and is not remembered |
| QuizCrawler.QuizRunOfTwo | crawlers/quiz/crawler.js:337 | a run over two posts is the step of the first, then of the second |
| QuizCrawler.QuizSecondRunRegistersAgain | crawlers/quiz/crawler.js:366-370 | as written, two new posts of one answered category: the first run collects the first and remembers only it; a second run from the written-back history collects the second, sets the flag again and adds the second link to the history, so the file is written back changed |
| QuizCrawler.QuizSecondRunOnSamplePosts | crawlers/quiz/crawler.js:366-370 | the same on concrete input: two `[Hpoint]` posts `/p1` and `/p2` whose bodies announce the answer 사과, on an empty history: the first run remembers only `/p1`, the second collects `/p2`, sets the flag and ends with `{/p1, /p2}` as its history |
| QuizCrawler.QuizStepRemembering | crawlers/quiz/crawler.js:366-370 | the corrected step: as the main loop's step, but a post of a category already answered is also remembered |
| QuizCrawler.SettledNotCollected | crawlers/quiz/crawler.js:341-427 | a post whose link is known, or whose title or body rules it out, is never collected |
| QuizCrawler.RememberingStepSettles | crawlers/quiz/crawler.js:337-435 | after the corrected step the post is settled and the history only grew |
| QuizCrawler.SettledGrows | crawlers/quiz/crawler.js:341 | a settled post stays settled as the history grows |
| QuizCrawler.QuizStepRememberingKeepsInv | crawlers/quiz/crawler.js:337-435 | the corrected step keeps the run invariant |
| QuizCrawler.QuizRunRememberingKeepsInv | crawlers/quiz/crawler.js:337-435 | the loop with the corrected step keeps the run invariant |
| QuizCrawler.QuizRunRememberingSettles | crawlers/quiz/crawler.js:337-435 | after the loop with the corrected step every listed post is settled by the final history |
| QuizCrawler.SettledRunCollectsNothing | crawlers/quiz/crawler.js:337-435 | a loop over posts all settled by its starting history collects nothing and leaves the flag alone |
| QuizCrawler.QuizRerunCollectsNothing | crawlers/quiz/crawler.js:317-452 | with the corrected step, a second run over the same listing and answers, from the history the first run wrote back (or the untouched file), collects nothing, so it registers no card and writes nothing |
| NaverPay.TrimKeepsSpaceFreeInfix | crawlers/ppomppu-naverpay/crawler.js:88-97 | a text containing a space-free word still contains it once trimmed |
| NaverPay.SpaceFreeOccurrence | crawlers/ppomppu-naverpay/crawler.js:88 | an occurrence of a space-free word starts and ends with non-space characters |
| NaverPay.MarkerHasNoSpaces | crawlers/ppomppu-naverpay/crawler.js:88 | the marker `네이버페이` has no white space |
| NaverPay.KeepsRow | crawlers/ppomppu-naverpay/crawler.js:85-88 | a row is kept when its raw title text contains `네이버페이`; stated by `NaverPay.ListedPostsMentionMarker` |
| NaverPay.KeptRowMentionsMarker | crawlers/ppomppu-naverpay/crawler.js:88-99 | the listing tests the raw title text but keeps the trimmed one; the trimmed title still mentions the marker |
| NaverPay.ListedPostsMentionMarker | crawlers/ppomppu-naverpay/crawler.js:82-103 | every listed post's title mentions `네이버페이` |
| NaverPay.AnchorCandidates | crawlers/ppomppu-naverpay/crawler.js:130-138 | an anchor offers at most two values |
| NaverPay.IsHarvestable | crawlers/ppomppu-naverpay/crawler.js:132 | a value starts with `http://` or `https://` and does not mention `s.ppomppu.co.kr`; stated by `NaverPay.CandidatesHarvestable` and `NaverPay.HarvestMembers` |
| NaverPay.Candidates | crawlers/ppomppu-naverpay/crawler.js:130-138 | every anchor's candidates, text before `href`, in anchor order; stated by `NaverPay.CandidatesHarvestable` |
| NaverPay.FlattenMembers | crawlers/ppomppu-naverpay/crawler.js:130 | a value is offered exactly when some anchor offers it |
| NaverPay.CandidatesHarvestable | crawlers/ppomppu-naverpay/crawler.js:132-137 | every offered value starts with `http://` or `https://` and does not mention `s.ppomppu.co.kr` |
| NaverPay.SetAdd | crawlers/ppomppu-naverpay/crawler.js:133 | `Set.add` keeps the old members in place and holds exactly them and the new value |
| NaverPay.AddAll | crawlers/ppomppu-naverpay/crawler.js:129-140 | adding values to the insertion-ordered set one by one; stated by `NaverPay.AddAllProperties` |
| NaverPay.Harvest | crawlers/ppomppu-naverpay/crawler.js:126-141 | `extractUrlsFromPost`'s result; stated by `NaverPay.HarvestMembers`, `NaverPay.HarvestKeepsFirstSeenOrder` and `NaverPay.HarvestUrls` |
| NaverPay.AddAllConcat | crawlers/ppomppu-naverpay/crawler.js:130-139 | adding two runs of values is adding the first, then the second |
| NaverPay.AddAllProperties | crawlers/ppomppu-naverpay/crawler.js:129-140 | adding keeps what was there in front, holds exactly the old members and the added values, and never repeats a value |
| NaverPay.HarvestMembers | crawlers/ppomppu-naverpay/crawler.js:126-141 | the harvest holds each harvestable anchor text or `href` exactly once, only harvestable values, and nothing when there is no content element |
| NaverPay.HarvestKeepsFirstSeenOrder | crawlers/ppomppu-naverpay/crawler.js:140 | what the first `k` anchors give comes first in the harvest, in the same order |
| NaverPay.AddAllPrefix | crawlers/ppomppu-naverpay/crawler.js:140 | the set built from a run of values is a prefix of the set built from that run extended |
| NaverPay.OfferAnchor | crawlers/ppomppu-naverpay/crawler.js:131-138 | one anchor of the scan adds its candidates, text first, to the set |
| NaverPay.HarvestUrls | crawlers/ppomppu-naverpay/crawler.js:126-141 | the body scan returns the harvest of the content |
| NaverPay.UrlRequest | crawlers/ppomppu-naverpay/crawler.js:201-204 | the request carries the URL and the one tag `NPay적립` and nothing else |
| NaverPay.Requests | crawlers/ppomppu-naverpay/crawler.js:199-208 | one request per URL, in order |
| NaverPay.CountCreated | crawlers/ppomppu-naverpay/crawler.js:199-218 | the number of URLs that got a 2xx; stated by `NaverPay.CountCreatedBounds` and `NaverPay.RegisterUrls` |
| NaverPay.CountCreatedBounds | crawlers/ppomppu-naverpay/crawler.js:199-218 | the registered count is at most the number of URLs, and zero exactly when no URL got a 2xx |
| NaverPay.RegisterUrls | crawlers/ppomppu-naverpay/crawler.js:196-221 | every URL is sent once, in order; the count is the number of 2xx responses |
| NaverPay.NaverPayVerdictOf | crawlers/ppomppu-naverpay/crawler.js:169-233 | "no link" exactly without a link, "local duplicate" exactly for a known link; a read post harvests its body and counts its 2xx registrations |
| NaverPay.ApplyNaverPayVerdict | crawlers/ppomppu-naverpay/crawler.js:169-233 | what each exit does to the state; stated by the one-exit lemmas below |
| NaverPay.NaverPayStep | crawlers/ppomppu-naverpay/crawler.js:169-235 | one iteration of the main loop; stated by the one-exit lemmas below and `NaverPay.NaverPayStepKeepsInv` |
| NaverPay.NaverPayRun | crawlers/ppomppu-naverpay/crawler.js:169-235 | the main loop over the listed posts; stated by `NaverPay.NaverPayRunKeepsInv` and `NaverPay.NaverPayMain` |
| NaverPay.NaverPayLocalDuplicateIsQuiet | crawlers/ppomppu-naverpay/crawler.js:173-177 | a known link only counts a local skip |
| NaverPay.NaverPayTransportErrorMeansAbsent | crawlers/ppomppu-naverpay/crawler.js:55-59 | after the local check has passed, an existence check that throws acts exactly like "does not exist": the body is read |
| NaverPay.NaverPayRemoteDuplicate | crawlers/ppomppu-naverpay/crawler.js:180-187 | a link the API has is checked, remembered and counted as a DB skip, and nothing else changes: nothing is read or sent |
| NaverPay.NaverPayStepRemembers | crawlers/ppomppu-naverpay/crawler.js:169-233 | every post with a link ends up in the history, even with no URLs or no accepted registration; a post without one changes nothing |
| NaverPay.NaverPayHarvestSends | crawlers/ppomppu-naverpay/crawler.js:191-227 | a read post sends one tagged request per harvested URL, none twice, all harvestable; it counts as new exactly when some URL got a 2xx |
| NaverPay.NaverPayStepKeepsInv | crawlers/ppomppu-naverpay/crawler.js:169-235 | one iteration keeps the invariant (flag iff a new post, new posts ≤ registered URLs ≤ requests sent, a registered URL only with a new post) and the history only grows |
| NaverPay.NaverPayRunKeepsInv | crawlers/ppomppu-naverpay/crawler.js:169-235 | the whole loop keeps that invariant and the history only grows |
| NaverPay.NaverPayRunFromFile | crawlers/ppomppu-naverpay/crawler.js:158-243 | after a run the flag is set exactly when a post counted as new (so the file is written exactly then) and every link from the file is still known |
| NaverPay.NaverPayRunRemembersAll | crawlers/ppomppu-naverpay/crawler.js:169-233 | after a run every listed post with a link is in the history |
| NaverPay.NaverPayRunOfKnown | crawlers/ppomppu-naverpay/crawler.js:169-235 | a run over posts whose links are all known changes only the local-skip count: nothing is checked, read, sent or added |
| NaverPay.NaverPayRerunRegistersNothing | crawlers/ppomppu-naverpay/crawler.js:153-243 | a second run over the same listing and responses, from the history the first run wrote back (or the untouched file), registers nothing and writes nothing; after a write-back it checks, reads and sends nothing, otherwise it repeats the first run exactly |
| NaverPay.NaverPayMain | crawlers/ppomppu-naverpay/crawler.js:153-243 | the main block's final state is the run of the decision procedure from the loaded history; the history is written back exactly when the flag is set |
| Jjizzle.ListedPostsHaveTitleAndLink | crawlers/ppomppu-jjizzle/crawler.js:95-114 | every listed post has a non-empty trimmed title and a link on the forum's origin, and every row with both becomes a listed post |
| Jjizzle.KeepsRow | crawlers/ppomppu-jjizzle/crawler.js:98-110 | a row is kept when its title is non-empty once trimmed and it has an `href`; stated by `Jjizzle.ListedPostsHaveTitleAndLink` |
| Jjizzle.IsBlocked | crawlers/ppomppu-jjizzle/crawler.js:152 | a link mentioning `sponsor` or `consulting`; stated by `Jjizzle.JjizzleVerdictOf` and `Jjizzle.BlockedLinkIgnored` |
| Jjizzle.Payload | crawlers/ppomppu-jjizzle/crawler.js:171-176 | the request carries the link, the title, `displayName - 쥐즐` and the fixed thumbnail, and no tags |
| Jjizzle.JjizzleVerdictOf | crawlers/ppomppu-jjizzle/crawler.js:140-190 | "no link" exactly without a link, "local duplicate" exactly for a known link, "blocked" exactly for an unknown link mentioning sponsor or consulting; "registered" only on a 2xx |
| Jjizzle.ApplyJjizzleVerdict | crawlers/ppomppu-jjizzle/crawler.js:140-190 | what each exit does to the state; stated by the one-exit lemmas below |
| Jjizzle.JjizzleStep | crawlers/ppomppu-jjizzle/crawler.js:140-193 | one iteration of a board's loop; stated by the one-exit lemmas below and `Jjizzle.JjizzleStepKeepsInv` |
| Jjizzle.BoardStart | crawlers/ppomppu-jjizzle/crawler.js:136-138 | a board starts with its three counters at zero; stated by `Jjizzle.BoardCountersInLockstep` |
| Jjizzle.BoardRun | crawlers/ppomppu-jjizzle/crawler.js:140-193 | a board's loop; stated by `Jjizzle.BoardRunKeepsInv` and `Jjizzle.CrawlBoard` |
| Jjizzle.JjizzleRun | crawlers/ppomppu-jjizzle/crawler.js:131-196 | the loop over the boards; stated by `Jjizzle.JjizzleRunKeepsInv` and `Jjizzle.JjizzleMain` |
| Jjizzle.JjizzleLocalDuplicateIsQuiet | crawlers/ppomppu-jjizzle/crawler.js:144-149 | a known link, from this board or an earlier one, only bumps the board and total skip counters |
| Jjizzle.BlockedLinkIgnored | crawlers/ppomppu-jjizzle/crawler.js:151-157 | a blocked link only bumps the board and total skip counters: it is neither checked, sent nor remembered, and nothing else changes |
| Jjizzle.JjizzleRemoteDuplicate | crawlers/ppomppu-jjizzle/crawler.js:160-168 | a link the API has is checked, remembered and counted as a DB skip on the board and in the totals, and nothing else changes: nothing is sent |
| Jjizzle.JjizzleTransportErrorMeansAbsent | crawlers/ppomppu-jjizzle/crawler.js:54-59 | after the local and block checks, an existence check that throws acts exactly like "does not exist": the post is sent |
| Jjizzle.JjizzleStepRemembers | crawlers/ppomppu-jjizzle/crawler.js:160-190 | every unblocked link is remembered, whether the API knew it, accepted it or refused it; blocked links and posts without a link leave the history alone |
| Jjizzle.JjizzleNewExactlyWhenCreated | crawlers/ppomppu-jjizzle/crawler.js:170-190 | a post counts as new exactly when it passed every exit and the registration got a 2xx; a 409 is a failure like any other |
| Jjizzle.JjizzleStepKeepsInv | crawlers/ppomppu-jjizzle/crawler.js:140-193 | one iteration keeps the invariant (flag iff a new post, new posts ≤ requests, every request for a remembered unblocked link) and the history only grows |
| Jjizzle.BoardRunKeepsInv | crawlers/ppomppu-jjizzle/crawler.js:140-193 | a board's loop keeps the invariant and keeps the board counters in lockstep with the totals |
| Jjizzle.BoardCountersInLockstep | crawlers/ppomppu-jjizzle/crawler.js:136-164 | after a board, each total grew by exactly that board's counter |
| Jjizzle.JjizzleRunKeepsInv | crawlers/ppomppu-jjizzle/crawler.js:131-196 | the loop over the boards keeps the invariant and the history only grows |
| Jjizzle.KnownLinkSkippedOnLaterBoard | crawlers/ppomppu-jjizzle/crawler.js:131-149 | a link remembered while crawling earlier boards is a local duplicate anywhere on a later board, whatever that board's earlier posts did |
| Jjizzle.JjizzleRunFromFile | crawlers/ppomppu-jjizzle/crawler.js:126-204 | after both boards the flag is set exactly when a post counted as new (so the file is written exactly then), no blocked link was ever sent, and every link from the file is still known |
| Jjizzle.JjizzleStepMakesKnown | crawlers/ppomppu-jjizzle/crawler.js:144-190 | after a step the post has no link, or a remembered one, or a blocked one; the history only grew |
| Jjizzle.KnownPostSkipped | crawlers/ppomppu-jjizzle/crawler.js:144-157 | such a post only moves the skip counters |
| Jjizzle.BoardRunMakesKnown | crawlers/ppomppu-jjizzle/crawler.js:140-193 | after a board every post it listed is known |
| Jjizzle.JjizzleRunMakesKnown | crawlers/ppomppu-jjizzle/crawler.js:131-196 | after both boards every listed post is known |
| Jjizzle.BoardRunOfKnown | crawlers/ppomppu-jjizzle/crawler.js:140-193 | a board of known posts only moves the skip counters |
| Jjizzle.JjizzleRunOfKnown | crawlers/ppomppu-jjizzle/crawler.js:131-196 | a run over known posts only moves the skip counters: nothing is checked, sent or added |
| Jjizzle.JjizzleRerunRegistersNothing | crawlers/ppomppu-jjizzle/crawler.js:121-204 | a second run over the same listings and responses, from the history the first run wrote back (or the untouched file), registers nothing and writes nothing; after a write-back it checks and sends nothing, otherwise it repeats the first run exactly |
| Jjizzle.CrawlBoard | crawlers/ppomppu-jjizzle/crawler.js:140-193 | one board's loop with its early exits ends in the state the decision procedure gives |
| Jjizzle.JjizzleMain | crawlers/ppomppu-jjizzle/crawler.js:121-207 | the main block's final state is the run over the two boards, in order, from the loaded history; the history is written back exactly when the flag is set |

## Left out

- The browser (puppeteer launch, navigation, timeouts, `waitForSelector`, the
  selector fallbacks for the quiz body, DOM queries) is not modelled.
  - Listings come in as rows of title text and `href`.
  - The quiz body comes in as an optional string.
  - The naverpay body comes in as an optional sequence of anchors.
  - A page that fails to load gives an empty listing or `None`, which is
    what those parameters express.
- HTTP calls are given as parameters: existence-check responses and
  registration responses. Response bodies beyond `exists` and the status
  are not modelled.
- The history file is modelled as the loaded set and the set written back.
  - Reading it and `JSON.parse` are a parameter (`None` when missing or
    unreadable).
  - The array written is modelled as the set, so the order `Array.from`
    gives is not captured.
- The `API_SECRET_KEY` exit, the random user agent, `sleep` and all logging
  are not modelled. This includes the per-board summary line and the
  `fullContent` excerpt.
- Today's date comes in as a parameter. The source computes it from the
  clock shifted to KST.
- The regular expressions are modelled as hand-written scanners, not by a
  general regular-expression engine:
  - the two answer patterns;
  - the ending strip;
  - the date pattern;
  - `^https?:\/\/`;
  - `\s+`.
  The scanners follow the leftmost, greedy/lazy backtracking order for
  these patterns only, and the model claims no equivalence beyond them.
  The `i` flag of the answer patterns changes nothing for Hangul.
- The top-level `try`/`catch` of the quiz and naverpay main blocks is not
  modelled: every modelled step is total.
- The quiz crawler's `extractQuizAnswer` page-evaluation failure is the body
  parameter being `None`.
- The jjizzle per-board counters are fields of the run state, reset at each
  board. The source keeps them as locals of the outer loop.
- The history file is written back only when `newCrawled` is set. Links added to the set without a new
  registration are not written back on their own: DB skips, naverpay posts
  with no accepted URL, and failed jjizzle registrations.

## Findings

| source | as written | input that shows it | evidently intended | confidence | as-written member | corrected member |
|---|---|---|---|---|---|---|
| crawlers/quiz/crawler.js:366-370 | a post of a category already answered in this run is skipped without its link being added to the history set; the set is written back when the flag is set (451-457) | one listing with two new posts of the same category, both dated today and both with an answer (say two `[Hpoint]` posts `/p1` and `/p2` whose bodies announce the answer 사과, as in `QuizCrawler.QuizSecondRunOnSamplePosts`): the first run collects the first and writes back only its link; a second run over the unchanged listing collects the second, sets the flag, sends a second digest request and writes the history back with `/p2` added | running the crawler twice on an unchanged listing registers nothing the second time and leaves the history file as it is | medium: the code's comments at 426 and 432 show that posts without an answer are left out of the set on purpose, to retry them; for posts of an answered category no such reason is given; not executed | QuizCrawler.QuizSecondRunRegistersAgain | QuizCrawler.QuizRerunCollectsNothing |

The corrected loop (`QuizCrawler.QuizStepRemembering`, `QuizCrawler.QuizRunRemembering`) also remembers a post of an
answered category. `QuizCrawler.QuizMain` keeps the code's behaviour, because the choice of which posts to remember is
deliberate in the code for the "no answer" exit. For the other two crawlers the second run registers nothing as
written: `NaverPay.NaverPayRerunRegistersNothing` and `Jjizzle.JjizzleRerunRegistersNothing`.
