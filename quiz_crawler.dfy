/** The quiz crawler's run: the per-post decision procedure over the coupon
    board's quiz posts, the run state it updates, the single digest card
    registered at the end, and the history file. */
module QuizCrawler {
  import opened Options
  import opened Text
  import opened Links
  import opened LinkApi
  import opened QuizRules
  import opened QuizAnswer

  /** One collected quiz: the category's key and answer, joined for display,
      with the post it came from. */
  datatype QuizInfo = QuizInfo(
    displayText: string,
    category: Category,
    answer: string,
    originalTitle: string,
    postLink: string)

  /** `collectQuizInfo`: the record kept for a post whose answer was found. */
  function CollectQuizInfo(category: Category, answer: string, originalTitle: string, postLink: string): (info: QuizInfo)
    ensures info.category == category && info.answer == answer
    ensures info.originalTitle == originalTitle && info.postLink == postLink
  {
    QuizInfo(Key(category) + " : " + answer, category, answer, originalTitle, postLink)
  }

  /** The display text is the category's key, a colon and the answer. */
  lemma CollectQuizInfoDisplay(category: Category, answer: string, originalTitle: string, postLink: string)
    ensures var text := CollectQuizInfo(category, answer, originalTitle, postLink).displayText;
      StartsWith(text, Key(category) + " : ") && EndsWith(text, answer)
      && |text| == |Key(category)| + 3 + |answer|
  {
    var text := Key(category) + " : " + answer;
    assert text[..|Key(category) + " : "|] == Key(category) + " : ";
    assert text[|text| - |answer|..] == answer;
  }

  /** What the outside world gives while one post is processed: the
      existence check's response and the post body (`None` when the page
      could not be loaded or none of the body selectors was found). */
  datatype QuizWorld = QuizWorld(check: CheckResponse, body: Option<string>)

  /** Why the main loop moved on from a post. */
  datatype QuizVerdict =
    | NoLink
    | LocalDuplicate
    | RemoteDuplicate
    | CategoryUnmatched
    | CategoryAlreadyFound
    | DateMismatched
    | NoAnswer
    | Collected(category: Category, answer: string)

  /** The main loop's state.  `checked` and `fetched` record, in order, the
      links sent to the existence check and the posts whose body was read. */
  datatype QuizState = QuizState(
    seen: set<string>,
    found: set<Category>,
    collected: seq<QuizInfo>,
    newCrawled: bool,
    totalNewPosts: nat,
    totalSkippedPosts: nat,
    totalDbSkippedPosts: nat,
    totalQuizInfoRegistered: nat,
    checked: seq<string>,
    fetched: seq<string>)

  /** The state before the first post: the history file's links, nothing else. */
  function InitialQuizState(seen: set<string>): QuizState {
    QuizState(seen, {}, [], false, 0, 0, 0, 0, [], [])
  }

  /** The decision procedure, in the loop's order: link, local history,
      existence check, category, category already answered, today's date,
      answer. */
  function QuizVerdictOf(s: QuizState, post: Post, w: QuizWorld, today: MonthDay): (v: QuizVerdict)
    ensures v == NoLink <==> !HasLink(post)
    ensures v == LocalDuplicate <==> HasLink(post) && post.link.value in s.seen
    ensures v.Collected? ==> v.category !in s.found && v.answer != [] && IsTrimmed(v.answer) && NoLineBreaks(v.answer)
  {
    if !HasLink(post) then NoLink
    else if post.link.value in s.seen then LocalDuplicate
    else if ExistsRemotely(w.check, s.seen, post.link.value) then RemoteDuplicate
    else
      match CategorizeQuiz(post.title)
      case None => CategoryUnmatched
      case Some(c) =>
        if c in s.found then CategoryAlreadyFound
        else if !DatePasses(post.title, today) then DateMismatched
        else
          match ExtractAnswer(w.body)
          case Some(a) => if a != [] then Collected(c, a) else NoAnswer
          case None => NoAnswer
  }

  /** Whether the verdict came after the existence check / after the body was read. */
  predicate WasChecked(v: QuizVerdict) {
    !(v == NoLink || v == LocalDuplicate)
  }

  predicate WasFetched(v: QuizVerdict) {
    v == NoAnswer || v.Collected?
  }

  /** What a verdict does to the state. */
  function ApplyQuizVerdict(s: QuizState, post: Post, v: QuizVerdict): QuizState {
    var link := if post.link.Some? then post.link.value else [];
    var s1 := s.(checked := if WasChecked(v) then s.checked + [link] else s.checked,
                 fetched := if WasFetched(v) then s.fetched + [link] else s.fetched);
    match v
    case LocalDuplicate => s1.(totalSkippedPosts := s.totalSkippedPosts + 1)
    case RemoteDuplicate => s1.(totalDbSkippedPosts := s.totalDbSkippedPosts + 1, seen := s.seen + {link})
    case Collected(c, a) =>
      s1.(collected := s.collected + [CollectQuizInfo(c, a, post.title, link)],
          found := s.found + {c},
          totalQuizInfoRegistered := s.totalQuizInfoRegistered + 1,
          newCrawled := true,
          totalNewPosts := s.totalNewPosts + 1,
          seen := s.seen + {link})
    case _ => s1
  }

  /** One iteration of the main loop. */
  function QuizStep(s: QuizState, post: Post, w: QuizWorld, today: MonthDay): QuizState {
    ApplyQuizVerdict(s, post, QuizVerdictOf(s, post, w, today))
  }

  /** The main loop over the listed posts, each with its own world. */
  function QuizRun(s: QuizState, posts: seq<Post>, worlds: seq<QuizWorld>, today: MonthDay): QuizState
    requires |worlds| == |posts|
  {
    if posts == [] then s
    else
      var n := |posts| - 1;
      QuizStep(QuizRun(s, posts[..n], worlds[..n], today), posts[n], worlds[n], today)
  }

  // ---------------------------------------------------------------------
  // What one step does

  /** The link joins the local history exactly when the existence check
      said it exists or its answer was collected; a post skipped for its
      category, its date or a missing answer leaves the history as it was. */
  lemma QuizStepSeen(s: QuizState, post: Post, w: QuizWorld, today: MonthDay)
    ensures var v := QuizVerdictOf(s, post, w, today);
      QuizStep(s, post, w, today).seen
        == if v == RemoteDuplicate || v.Collected? then s.seen + {post.link.value} else s.seen
  {
  }

  /** A locally known link costs no existence check and no page load, and
      only counts a local skip. */
  lemma QuizLocalDuplicateIsQuiet(s: QuizState, post: Post, w: QuizWorld, today: MonthDay)
    requires HasLink(post) && post.link.value in s.seen
    ensures QuizStep(s, post, w, today) == s.(totalSkippedPosts := s.totalSkippedPosts + 1)
  {
  }

  /** The transport-failure fallback: once the local check has passed, a
      failed existence check is read as "does not exist". */
  lemma QuizTransportErrorMeansAbsent(s: QuizState, post: Post, body: Option<string>, today: MonthDay)
    requires HasLink(post) && post.link.value !in s.seen
    ensures QuizStep(s, post, QuizWorld(TransportError, body), today)
         == QuizStep(s, post, QuizWorld(Answered(false), body), today)
  {
  }

  /** A link the API already holds is remembered and counted as a database
      skip, and its page is never loaded. */
  lemma QuizRemoteDuplicate(s: QuizState, post: Post, body: Option<string>, today: MonthDay)
    requires HasLink(post) && post.link.value !in s.seen
    ensures var s' := QuizStep(s, post, QuizWorld(Answered(true), body), today);
      s' == s.(checked := s.checked + [post.link.value],
               totalDbSkippedPosts := s.totalDbSkippedPosts + 1,
               seen := s.seen + {post.link.value})
  {
  }

  /** A category that already has its answer is skipped before its page is
      loaded, so the first accepted post of each category wins. */
  lemma QuizCategoryAnsweredOnce(s: QuizState, post: Post, w: QuizWorld, today: MonthDay)
    requires HasLink(post) && post.link.value !in s.seen && !ExistsRemotely(w.check, s.seen, post.link.value)
    requires CategorizeQuiz(post.title).Some? && CategorizeQuiz(post.title).value in s.found
    ensures QuizStep(s, post, w, today) == s.(checked := s.checked + [post.link.value])
  {
  }

  /** A post dated another day is skipped before its page is loaded. */
  lemma QuizWrongDateSkipped(s: QuizState, post: Post, w: QuizWorld, today: MonthDay)
    requires HasLink(post) && post.link.value !in s.seen && !ExistsRemotely(w.check, s.seen, post.link.value)
    requires CategorizeQuiz(post.title).Some? && CategorizeQuiz(post.title).value !in s.found
    requires !DatePasses(post.title, today)
    ensures QuizStep(s, post, w, today) == s.(checked := s.checked + [post.link.value])
  {
  }

  /** A page without a usable answer is read but changes nothing else: the
      link is not remembered, so a later run will try it again. */
  lemma QuizNoAnswerNotRemembered(s: QuizState, post: Post, w: QuizWorld, today: MonthDay)
    requires QuizVerdictOf(s, post, w, today) == NoAnswer
    ensures QuizStep(s, post, w, today)
         == s.(checked := s.checked + [post.link.value], fetched := s.fetched + [post.link.value])
  {
  }

  /** A collected answer comes from a post with a link, not known locally
      nor to the API, whose title has that category and passes the date
      rule, and whose body yields that answer. */
  lemma QuizCollectedMeans(s: QuizState, post: Post, w: QuizWorld, today: MonthDay)
    ensures var v := QuizVerdictOf(s, post, w, today);
      v.Collected? <==>
        && HasLink(post) && post.link.value !in s.seen && !ExistsRemotely(w.check, s.seen, post.link.value)
        && CategorizeQuiz(post.title).Some? && CategorizeQuiz(post.title).value !in s.found
        && DatePasses(post.title, today)
        && ExtractAnswer(w.body).Some? && ExtractAnswer(w.body).value != []
    ensures var v := QuizVerdictOf(s, post, w, today);
      v.Collected? ==> Some(v.category) == CategorizeQuiz(post.title) && Some(v.answer) == ExtractAnswer(w.body)
  {
  }

  /** A post the classifier accepts never takes the "no category" exit; in
      particular no post that came through the listing does. */
  lemma CategorizedNeverUnmatched(s: QuizState, post: Post, w: QuizWorld, today: MonthDay)
    requires CategorizeQuiz(post.title).Some?
    ensures QuizVerdictOf(s, post, w, today) != CategoryUnmatched
  {
  }

  /** Over the posts the listing yields, no iteration of the main loop ever
      takes the "no category" exit: the listing's prefilter and the
      classifier accept the same titles. */
  lemma ListedRunNeverUnmatched(s: QuizState, rows: seq<ListingRow>, worlds: seq<QuizWorld>, today: MonthDay)
    requires |worlds| == |ListPosts(rows, QuizRules.KeepsRow)|
    ensures var posts := ListPosts(rows, QuizRules.KeepsRow);
      forall i :: 0 <= i < |posts| ==>
        QuizVerdictOf(QuizRun(s, posts[..i], worlds[..i], today), posts[i], worlds[i], today) != CategoryUnmatched
  {
    var posts := ListPosts(rows, QuizRules.KeepsRow);
    ListedPostsAreCategorized(rows);
    forall i | 0 <= i < |posts|
      ensures QuizVerdictOf(QuizRun(s, posts[..i], worlds[..i], today), posts[i], worlds[i], today) != CategoryUnmatched
    {
      assert posts[i] in posts;
      CategorizedNeverUnmatched(QuizRun(s, posts[..i], worlds[..i], today), posts[i], worlds[i], today);
    }
  }

  // ---------------------------------------------------------------------
  // The run invariant

  /** No two collected quizzes share a category. */
  predicate DistinctCategories(collected: seq<QuizInfo>) {
    forall i, j :: 0 <= i < j < |collected| ==> collected[i].category != collected[j].category
  }

  /** The categories of the collected quizzes. */
  function CategoriesOf(collected: seq<QuizInfo>): (cs: set<Category>)
    ensures forall c :: c in cs <==> exists i :: 0 <= i < |collected| && collected[i].category == c
  {
    if collected == [] then {}
    else
      var n := |collected| - 1;
      var front := CategoriesOf(collected[..n]);
      assert forall i :: 0 <= i < n ==> collected[..n][i] == collected[i];
      front + {collected[n].category}
  }

  /** What holds after every iteration: one quiz per category, `found` is
      the set of collected categories, every answer is a non-empty trimmed
      line whose post is remembered, and the flag and counters agree with
      the collected list. */
  predicate QuizInv(s: QuizState) {
    && DistinctCategories(s.collected)
    && s.found == CategoriesOf(s.collected)
    && (s.newCrawled <==> |s.collected| > 0)
    && s.totalNewPosts == |s.collected|
    && s.totalQuizInfoRegistered == |s.collected|
    && (forall i :: 0 <= i < |s.collected| ==>
          s.collected[i].answer != [] && IsTrimmed(s.collected[i].answer)
          && NoLineBreaks(s.collected[i].answer) && s.collected[i].postLink in s.seen)
  }

  lemma InitialQuizInv(seen: set<string>)
    ensures QuizInv(InitialQuizState(seen))
  {
  }

  /** A verdict other than `Collected` leaves the collected list, the found
      categories, the flag and the counters the invariant speaks of as they
      were, and only adds to the local history. */
  lemma ApplyOtherVerdict(s: QuizState, post: Post, v: QuizVerdict)
    requires !v.Collected?
    ensures var s' := ApplyQuizVerdict(s, post, v);
      && s'.collected == s.collected && s'.found == s.found && s'.newCrawled == s.newCrawled
      && s'.totalNewPosts == s.totalNewPosts && s'.totalQuizInfoRegistered == s.totalQuizInfoRegistered
      && s.seen <= s'.seen
  {
  }

  lemma InvKeptByOther(s: QuizState, s': QuizState)
    requires QuizInv(s)
    requires s'.collected == s.collected && s'.found == s.found && s'.newCrawled == s.newCrawled
    requires s'.totalNewPosts == s.totalNewPosts && s'.totalQuizInfoRegistered == s.totalQuizInfoRegistered
    requires s.seen <= s'.seen
    ensures QuizInv(s')
  {
  }

  /** Adding a quiz of a category not yet found, whose answer is a
      non-empty trimmed line and whose link is remembered, keeps the
      invariant. */
  lemma InvKeptByCollect(s: QuizState, info: QuizInfo)
    requires QuizInv(s)
    requires info.category !in s.found && info.answer != [] && IsTrimmed(info.answer) && NoLineBreaks(info.answer)
    ensures QuizInv(s.(collected := s.collected + [info], found := s.found + {info.category},
                       totalQuizInfoRegistered := s.totalQuizInfoRegistered + 1, newCrawled := true,
                       totalNewPosts := s.totalNewPosts + 1, seen := s.seen + {info.postLink}))
  {
    var cs := s.collected + [info];
    assert cs[..|s.collected|] == s.collected;
    assert CategoriesOf(cs) == CategoriesOf(s.collected) + {info.category};
    forall i, j | 0 <= i < j < |cs| ensures cs[i].category != cs[j].category {
      if j == |s.collected| {
        assert s.collected[i].category in CategoriesOf(s.collected);
      }
    }
  }

  lemma ApplyQuizVerdictKeepsInv(s: QuizState, post: Post, v: QuizVerdict)
    requires QuizInv(s)
    requires v.Collected? ==> HasLink(post) && v.category !in s.found && v.answer != []
                              && IsTrimmed(v.answer) && NoLineBreaks(v.answer)
    ensures QuizInv(ApplyQuizVerdict(s, post, v))
    ensures s.seen <= ApplyQuizVerdict(s, post, v).seen
  {
    var s' := ApplyQuizVerdict(s, post, v);
    if v.Collected? {
      var link := post.link.value;
      var info := CollectQuizInfo(v.category, v.answer, post.title, link);
      var s1 := s.(checked := s.checked + [link], fetched := s.fetched + [link]);
      assert s' == s1.(collected := s.collected + [info], found := s.found + {info.category},
                       totalQuizInfoRegistered := s.totalQuizInfoRegistered + 1, newCrawled := true,
                       totalNewPosts := s.totalNewPosts + 1, seen := s.seen + {info.postLink});
      InvKeptByCollect(s1, info);
    } else {
      ApplyOtherVerdict(s, post, v);
      InvKeptByOther(s, s');
    }
  }

  lemma QuizStepKeepsInv(s: QuizState, post: Post, w: QuizWorld, today: MonthDay)
    requires QuizInv(s)
    ensures QuizInv(QuizStep(s, post, w, today))
    ensures s.seen <= QuizStep(s, post, w, today).seen
  {
    ApplyQuizVerdictKeepsInv(s, post, QuizVerdictOf(s, post, w, today));
  }

  lemma {:induction false} QuizRunKeepsInv(s: QuizState, posts: seq<Post>, worlds: seq<QuizWorld>, today: MonthDay)
    requires |worlds| == |posts| && QuizInv(s)
    ensures QuizInv(QuizRun(s, posts, worlds, today))
    ensures s.seen <= QuizRun(s, posts, worlds, today).seen
    decreases |posts|
  {
    if posts != [] {
      var n := |posts| - 1;
      QuizRunKeepsInv(s, posts[..n], worlds[..n], today);
      QuizStepKeepsInv(QuizRun(s, posts[..n], worlds[..n], today), posts[n], worlds[n], today);
    }
  }

  lemma {:induction false} DistinctCategoriesCount(collected: seq<QuizInfo>)
    requires DistinctCategories(collected)
    ensures |CategoriesOf(collected)| == |collected|
    decreases |collected|
  {
    if collected != [] {
      var n := |collected| - 1;
      var front := collected[..n];
      assert DistinctCategories(front);
      DistinctCategoriesCount(front);
      assert collected[n].category !in CategoriesOf(front);
    }
  }

  lemma {:induction false} SubsetNoLarger<T>(a: set<T>, b: set<T>)
    requires a <= b
    ensures |a| <= |b|
    decreases |a|
  {
    if a != {} {
      var x :| x in a;
      SubsetNoLarger(a - {x}, b - {x});
    }
  }

  /** At most six answers are ever collected, one per category. */
  lemma QuizCollectsAtMostSix(s: QuizState)
    requires QuizInv(s)
    ensures |s.collected| <= 6
  {
    DistinctCategoriesCount(s.collected);
    AllCategoriesCount();
    SubsetNoLarger(CategoriesOf(s.collected), AllCategories);
  }

  // ---------------------------------------------------------------------
  // The digest card

  /** One line of the digest: `[category] : answer` and a line feed. */
  function DigestLine(info: QuizInfo): (line: string)
    ensures |line| >= 2 && line[0] == '[' && line[|line| - 1] == '\n'
    ensures EndsWith(line, info.answer + "\n")
  {
    var line := "[" + Key(info.category) + "] : " + info.answer + "\n";
    assert line[|line| - |info.answer + "\n"|..] == info.answer + "\n";
    line
  }

  /** The combined description: every line, in collection order. */
  function DigestText(list: seq<QuizInfo>): string {
    if list == [] then [] else DigestText(list[..|list| - 1]) + DigestLine(list[|list| - 1])
  }

  lemma {:induction false} DigestTextShape(list: seq<QuizInfo>)
    requires list != []
    ensures var d := DigestText(list); var last := DigestLine(list[|list| - 1]);
      |d| >= |last| && d[0] == '[' && d[|d| - |last|..] == last
    decreases |list|
  {
    var n := |list| - 1;
    var d := DigestText(list);
    var last := DigestLine(list[n]);
    assert d == DigestText(list[..n]) + last;
    if n > 0 {
      DigestTextShape(list[..n]);
    }
  }

  /** Trimming the digest removes only the final line feed when the last
      answer is a non-empty trimmed line. */
  lemma DigestTrimDropsFinalLineFeed(list: seq<QuizInfo>)
    requires list != []
    requires var a := list[|list| - 1].answer; a != [] && IsTrimmed(a)
    ensures var d := DigestText(list); Trim(d) == d[..|d| - 1]
  {
    var d := DigestText(list);
    var a := list[|list| - 1].answer;
    var line := DigestLine(list[|list| - 1]);
    DigestTextShape(list);
    EndsWithOfEndsWith(d, line, a + "\n");
    TrimDropsLineFeedAfter(d, a);
  }

  /** A suffix of a suffix is a suffix. */
  lemma EndsWithOfEndsWith(s: string, u: string, v: string)
    requires |u| <= |s| && s[|s| - |u|..] == u && EndsWith(u, v)
    ensures EndsWith(s, v)
  {
    assert s[|s| - |v|..] == u[|u| - |v|..];
  }

  /** A text that does not open with white space and ends with a trimmed
      non-empty line and a line feed loses just that line feed to `Trim`. */
  lemma TrimDropsLineFeedAfter(d: string, a: string)
    requires a != [] && IsTrimmed(a) && EndsWith(d, a + "\n") && !IsSpace(d[0])
    ensures Trim(d) == d[..|d| - 1]
  {
    var core := d[..|d| - 1];
    assert core[|core| - 1] == (a + "\n")[|a| - 1] == a[|a| - 1];
    assert d == core + ['\n'];
    TrimDropsFinalSpace(core, '\n');
  }

  /** What `registerQuizBatchToAPI` reports. */
  datatype BatchResult = BatchResult(success: nat, failed: nat, skipped: nat)

  /** The registration's outcome as a batch result: exactly one of the three
      counters is 1. */
  function BatchOutcome(response: RegisterResponse): (r: BatchResult)
    ensures r.success + r.failed + r.skipped == 1
    ensures r.success == 1 <==> response == Created
    ensures r.skipped == 1 <==> response == Conflict
  {
    match response
    case Created => BatchResult(1, 0, 0)
    case Conflict => BatchResult(0, 0, 1)
    case Failed => BatchResult(0, 1, 0)
  }

  /** `registerQuizBatchToAPI`: nothing to send for an empty list; otherwise
      the digest, built line by line, is sent trimmed as one text card
      tagged `퀴즈`, and the response decides the result. */
  method RegisterQuizBatch(list: seq<QuizInfo>, response: RegisterResponse)
    returns (result: BatchResult, request: Option<LinkRequest>)
    ensures list == [] ==> result == BatchResult(0, 0, 0) && request == None
    ensures list != [] ==> result == BatchOutcome(response)
    ensures list != [] ==> request == Some(LinkRequest(Trim(DigestText(list)), None, None, None, Some(["퀴즈"])))
  {
    if |list| == 0 {
      return BatchResult(0, 0, 0), None;
    }
    var combined := "";
    var i := 0;
    while i < |list|
      invariant 0 <= i <= |list|
      invariant combined == DigestText(list[..i])
    {
      combined := combined + DigestLine(list[i]);
      assert list[..i + 1][..i] == list[..i];
      i := i + 1;
    }
    assert list[..i] == list;
    request := Some(LinkRequest(Trim(combined), None, None, None, Some(["퀴즈"])));
    result := BatchOutcome(response);
  }

  // ---------------------------------------------------------------------
  // The run

  /** What a run leaves behind: the loop's final state, the digest request
      sent (if any), the final registered count, and the history written
      back (`None` when the file was left alone). */
  datatype QuizRunResult = QuizRunResult(
    state: QuizState,
    request: Option<LinkRequest>,
    registered: nat,
    persisted: Option<set<string>>)

  /** The crawler's main block: load the history, walk the listed posts with
      the loop's early exits, register the digest when something was
      collected, and write the history back when an answer was collected. */
  method QuizMain(file: Option<seq<string>>, posts: seq<Post>, worlds: seq<QuizWorld>,
                  today: MonthDay, response: RegisterResponse)
    returns (out: QuizRunResult)
    requires |worlds| == |posts|
    ensures out.state == QuizRun(InitialQuizState(LoadSnapshot(file)), posts, worlds, today)
    ensures out.request
         == if out.state.collected != [] then Some(LinkRequest(Trim(DigestText(out.state.collected)), None, None, None, Some(["퀴즈"])))
            else None
    ensures out.registered
         == if out.state.collected != [] then BatchOutcome(response).success else out.state.totalQuizInfoRegistered
    ensures out.persisted == if out.state.newCrawled then Some(out.state.seen) else None
  {
    var seen := LoadSnapshot(file);
    ghost var s0 := InitialQuizState(seen);
    var newCrawled := false;
    var totalNewPosts, totalSkippedPosts, totalDbSkippedPosts, totalQuizInfoRegistered := 0, 0, 0, 0;
    var collected: seq<QuizInfo> := [];
    var found: set<Category> := {};
    var checked: seq<string> := [];
    var fetched: seq<string> := [];
    for i := 0 to |posts|
      invariant QuizState(seen, found, collected, newCrawled, totalNewPosts, totalSkippedPosts, totalDbSkippedPosts,
                          totalQuizInfoRegistered, checked, fetched)
             == QuizRun(s0, posts[..i], worlds[..i], today)
    {
      assert posts[..i + 1][..i] == posts[..i] && worlds[..i + 1][..i] == worlds[..i];
      ghost var s := QuizState(seen, found, collected, newCrawled, totalNewPosts, totalSkippedPosts, totalDbSkippedPosts,
                               totalQuizInfoRegistered, checked, fetched);
      var post := posts[i];
      ghost var v := QuizVerdictOf(s, post, worlds[i], today);
      ghost var next := QuizStep(s, post, worlds[i], today);
      assert QuizRun(s0, posts[..i + 1], worlds[..i + 1], today) == next;
      if post.link.None? || post.link.value == [] {
        assert v == NoLink;
        assert QuizState(seen, found, collected, newCrawled, totalNewPosts, totalSkippedPosts, totalDbSkippedPosts,
                 totalQuizInfoRegistered, checked, fetched) == ApplyQuizVerdict(s, post, v);
        continue;
      }
      var link := post.link.value;
      if link in seen {
        assert v == LocalDuplicate;
        totalSkippedPosts := totalSkippedPosts + 1;
        assert QuizState(seen, found, collected, newCrawled, totalNewPosts, totalSkippedPosts, totalDbSkippedPosts,
                 totalQuizInfoRegistered, checked, fetched) == ApplyQuizVerdict(s, post, v);
        continue;
      }
      checked := checked + [link];
      var existsInDb := ExistsRemotely(worlds[i].check, seen, link);
      if existsInDb {
        assert v == RemoteDuplicate;
        totalDbSkippedPosts := totalDbSkippedPosts + 1;
        seen := seen + {link};
        assert QuizState(seen, found, collected, newCrawled, totalNewPosts, totalSkippedPosts, totalDbSkippedPosts,
                 totalQuizInfoRegistered, checked, fetched) == ApplyQuizVerdict(s, post, v);
        continue;
      }
      var category := CategorizeQuiz(post.title);
      if category.None? {
        assert v == CategoryUnmatched;
        assert QuizState(seen, found, collected, newCrawled, totalNewPosts, totalSkippedPosts, totalDbSkippedPosts,
                 totalQuizInfoRegistered, checked, fetched) == ApplyQuizVerdict(s, post, v);
        continue;
      }
      var c := category.value;
      if c in found {
        assert v == CategoryAlreadyFound;
        assert QuizState(seen, found, collected, newCrawled, totalNewPosts, totalSkippedPosts, totalDbSkippedPosts,
                 totalQuizInfoRegistered, checked, fetched) == ApplyQuizVerdict(s, post, v);
        continue;
      }
      if !DatePasses(post.title, today) {
        assert v == DateMismatched;
        assert QuizState(seen, found, collected, newCrawled, totalNewPosts, totalSkippedPosts, totalDbSkippedPosts,
                 totalQuizInfoRegistered, checked, fetched) == ApplyQuizVerdict(s, post, v);
        continue;
      }
      fetched := fetched + [link];
      var quizData := ExtractAnswer(worlds[i].body);
      if quizData.Some? && quizData.value != [] {
        assert v == Collected(c, quizData.value);
        collected := collected + [CollectQuizInfo(c, quizData.value, post.title, link)];
        found := found + {c};
        totalQuizInfoRegistered := totalQuizInfoRegistered + 1;
        newCrawled := true;
        totalNewPosts := totalNewPosts + 1;
        seen := seen + {link};
        assert QuizState(seen, found, collected, newCrawled, totalNewPosts, totalSkippedPosts, totalDbSkippedPosts,
                 totalQuizInfoRegistered, checked, fetched) == ApplyQuizVerdict(s, post, v);
      } else {
        assert v == NoAnswer;
        assert QuizState(seen, found, collected, newCrawled, totalNewPosts, totalSkippedPosts, totalDbSkippedPosts,
                 totalQuizInfoRegistered, checked, fetched) == ApplyQuizVerdict(s, post, v);
      }
    }
    assert posts[..|posts|] == posts && worlds[..|worlds|] == worlds;
    var state := QuizState(seen, found, collected, newCrawled, totalNewPosts, totalSkippedPosts, totalDbSkippedPosts,
                           totalQuizInfoRegistered, checked, fetched);
    var request: Option<LinkRequest> := None;
    if |collected| > 0 {
      var batchResult;
      batchResult, request := RegisterQuizBatch(collected, response);
      totalQuizInfoRegistered := batchResult.success;
    }
    var persisted: Option<set<string>> := None;
    if newCrawled {
      persisted := Some(seen);
    }
    out := QuizRunResult(state, request, totalQuizInfoRegistered, persisted);
  }

  /** A whole run from the history file: after the loop the flag says
      exactly whether an answer was collected, so the history is written
      back exactly then, at most six quizzes go into the digest, and every
      link the file held is still remembered. */
  lemma QuizRunFromFile(file: Option<seq<string>>, posts: seq<Post>, worlds: seq<QuizWorld>, today: MonthDay)
    requires |worlds| == |posts|
    ensures var s := QuizRun(InitialQuizState(LoadSnapshot(file)), posts, worlds, today);
      && (s.newCrawled <==> |s.collected| > 0)
      && |s.collected| <= 6
      && DistinctCategories(s.collected)
      && LoadSnapshot(file) <= s.seen
  {
    var s0 := InitialQuizState(LoadSnapshot(file));
    InitialQuizInv(LoadSnapshot(file));
    QuizRunKeepsInv(s0, posts, worlds, today);
    QuizCollectsAtMostSix(QuizRun(s0, posts, worlds, today));
  }

  // ---------------------------------------------------------------------
  // Running twice
  //
  // A post of a category already answered is skipped without being
  // remembered, so after a run that wrote the history back, a second run
  // over the same listing collects the next post of that category, sends a
  // second digest request and writes the history back with that post
  // added.  `QuizSecondRunRegistersAgain` shows it on the main loop as
  // written; `QuizStepRemembering` is the step that also remembers such a
  // post, and `QuizRerunCollectsNothing` proves that with it a second run
  // registers nothing and writes nothing back.

  /** A fresh post of a category not yet answered, dated today, whose body
      carries an answer, is collected and remembered. */
  lemma FreshQuizCollected(s: QuizState, post: Post, w: QuizWorld, today: MonthDay)
    requires HasLink(post) && post.link.value !in s.seen && w.check == Answered(false)
    requires CategorizeQuiz(post.title).Some? && CategorizeQuiz(post.title).value !in s.found
    requires DatePasses(post.title, today)
    requires ExtractAnswer(w.body).Some? && ExtractAnswer(w.body).value != []
    ensures var c, link := CategorizeQuiz(post.title).value, post.link.value;
      QuizStep(s, post, w, today)
        == s.(checked := s.checked + [link], fetched := s.fetched + [link],
              collected := s.collected + [CollectQuizInfo(c, ExtractAnswer(w.body).value, post.title, link)],
              found := s.found + {c}, totalQuizInfoRegistered := s.totalQuizInfoRegistered + 1,
              newCrawled := true, totalNewPosts := s.totalNewPosts + 1, seen := s.seen + {link})
  {
    var c, a := CategorizeQuiz(post.title).value, ExtractAnswer(w.body).value;
    var v := QuizVerdictOf(s, post, w, today);
    assert v == Collected(c, a) by {
      assert !ExistsRemotely(w.check, s.seen, post.link.value);
    }
    assert QuizStep(s, post, w, today) == ApplyQuizVerdict(s, post, Collected(c, a));
  }

  /** A fresh post of a category already answered is skipped after the
      existence check, and its link is not remembered. */
  lemma QuizAlreadyFoundForgets(s: QuizState, post: Post, w: QuizWorld, today: MonthDay)
    requires HasLink(post) && post.link.value !in s.seen && w.check == Answered(false)
    requires CategorizeQuiz(post.title).Some? && CategorizeQuiz(post.title).value in s.found
    ensures QuizStep(s, post, w, today) == s.(checked := s.checked + [post.link.value])
  {
    assert QuizVerdictOf(s, post, w, today) == CategoryAlreadyFound;
  }

  lemma QuizRunOfTwo(s: QuizState, p1: Post, p2: Post, w1: QuizWorld, w2: QuizWorld, today: MonthDay)
    ensures QuizRun(s, [p1, p2], [w1, w2], today) == QuizStep(QuizStep(s, p1, w1, today), p2, w2, today)
  {
    var posts, worlds := [p1, p2], [w1, w2];
    assert posts[..1] == [p1] && worlds[..1] == [w1];
    assert [p1][..0] == [] && [w1][..0] == [];
    assert QuizRun(s, [p1], [w1], today) == QuizStep(s, p1, w1, today);
  }

  /** As written, two new posts of one category, both dated today and both
      with an answer: the first run collects the first and remembers only
      it; a second run from that history collects the second. */
  lemma QuizSecondRunRegistersAgain(seen: set<string>, p1: Post, p2: Post, w1: QuizWorld, w2: QuizWorld,
                                    today: MonthDay)
    requires HasLink(p1) && HasLink(p2) && p1.link.value != p2.link.value
    requires p1.link.value !in seen && p2.link.value !in seen
    requires CategorizeQuiz(p1.title).Some? && CategorizeQuiz(p2.title) == CategorizeQuiz(p1.title)
    requires DatePasses(p1.title, today) && DatePasses(p2.title, today)
    requires w1.check == Answered(false) && w2.check == Answered(false)
    requires ExtractAnswer(w1.body).Some? && ExtractAnswer(w1.body).value != []
    requires ExtractAnswer(w2.body).Some? && ExtractAnswer(w2.body).value != []
    ensures var r1 := QuizRun(InitialQuizState(seen), [p1, p2], [w1, w2], today);
      r1.newCrawled && r1.seen == seen + {p1.link.value}
    ensures var r1 := QuizRun(InitialQuizState(seen), [p1, p2], [w1, w2], today);
      var r2 := QuizRun(InitialQuizState(r1.seen), [p1, p2], [w1, w2], today);
      r2.newCrawled && |r2.collected| == 1 && r2.collected[0].postLink == p2.link.value
      && r2.seen == r1.seen + {p2.link.value}
  {
    // first run: p1 collected, p2 skipped as its category is answered
    var s0 := InitialQuizState(seen);
    QuizRunOfTwo(s0, p1, p2, w1, w2, today);
    FreshQuizCollected(s0, p1, w1, today);
    var a1 := QuizStep(s0, p1, w1, today);
    QuizAlreadyFoundForgets(a1, p2, w2, today);
    var r1 := QuizStep(a1, p2, w2, today);
    assert r1.seen == seen + {p1.link.value} && r1.newCrawled;
    // second run: p1 a local duplicate, p2 collected
    var t0 := InitialQuizState(r1.seen);
    QuizRunOfTwo(t0, p1, p2, w1, w2, today);
    QuizLocalDuplicateIsQuiet(t0, p1, w1, today);
    var b1 := QuizStep(t0, p1, w1, today);
    FreshQuizCollected(b1, p2, w2, today);
  }

  /** The same on concrete posts: two "[Hpoint]" posts, both announcing the
      answer "사과", on an empty history. The first run remembers only the
      first link; the second run collects the second post. */
  lemma QuizSecondRunOnSamplePosts()
    ensures var p1 := Post("[Hpoint]", Some("/p1"));
      var p2 := Post("[Hpoint]", Some("/p2"));
      var w := QuizWorld(Answered(false), Some("...정답입니다. 정답: 사과\n다음 문제는..."));
      var r1 := QuizRun(InitialQuizState({}), [p1, p2], [w, w], MonthDay(8, 10));
      var r2 := QuizRun(InitialQuizState(r1.seen), [p1, p2], [w, w], MonthDay(8, 10));
      r1.seen == {"/p1"} && r2.newCrawled && |r2.collected| == 1 && r2.collected[0].postLink == "/p2"
      && r2.seen == {"/p1", "/p2"}
  {
    HpointTitleClassified(MonthDay(8, 10));
    ExtractAnswerOfSampleBody();
    var p1 := Post("[Hpoint]", Some("/p1"));
    var p2 := Post("[Hpoint]", Some("/p2"));
    var w := QuizWorld(Answered(false), Some("...정답입니다. 정답: 사과\n다음 문제는..."));
    QuizSecondRunRegistersAgain({}, p1, p2, w, w, MonthDay(8, 10));
    assert {} + {"/p1"} == {"/p1"};
    assert {"/p1"} + {"/p2"} == {"/p1", "/p2"};
  }

  /** The corrected step: a post of a category already answered is
      remembered too, so that only posts a later run may still need stay
      out of the history. */
  function QuizStepRemembering(s: QuizState, post: Post, w: QuizWorld, today: MonthDay): (r: QuizState)
    ensures r.collected == QuizStep(s, post, w, today).collected
    ensures r.newCrawled == QuizStep(s, post, w, today).newCrawled
    ensures r.seen == QuizStep(s, post, w, today).seen
                      + (if QuizVerdictOf(s, post, w, today) == CategoryAlreadyFound then {post.link.value} else {})
  {
    var s' := QuizStep(s, post, w, today);
    if QuizVerdictOf(s, post, w, today) == CategoryAlreadyFound then s'.(seen := s'.seen + {post.link.value})
    else s'
  }

  /** The main loop with the corrected step. */
  function QuizRunRemembering(s: QuizState, posts: seq<Post>, worlds: seq<QuizWorld>, today: MonthDay): QuizState
    requires |worlds| == |posts|
  {
    if posts == [] then s
    else
      var n := |posts| - 1;
      QuizStepRemembering(QuizRunRemembering(s, posts[..n], worlds[..n], today), posts[n], worlds[n], today)
  }

  /** A post no run can collect once `seen` is its history: it has no link,
      its link is remembered, or its title or its body rules it out. */
  predicate Settled(seen: set<string>, post: Post, w: QuizWorld, today: MonthDay) {
    || !HasLink(post) || post.link.value in seen
    || CategorizeQuiz(post.title).None? || !DatePasses(post.title, today)
    || ExtractAnswer(w.body).None? || ExtractAnswer(w.body).value == []
  }

  lemma SettledNotCollected(seen: set<string>, s: QuizState, post: Post, w: QuizWorld, today: MonthDay)
    requires Settled(seen, post, w, today) && seen <= s.seen
    ensures !QuizVerdictOf(s, post, w, today).Collected?
  {
    QuizCollectedMeans(s, post, w, today);
  }

  /** After the corrected step the post is settled, and the history only
      grew; the as-written step fails this for a post of a category
      already answered. */
  lemma RememberingStepSettles(s: QuizState, post: Post, w: QuizWorld, today: MonthDay)
    ensures s.seen <= QuizStepRemembering(s, post, w, today).seen
    ensures Settled(QuizStepRemembering(s, post, w, today).seen, post, w, today)
  {
    QuizStepSeen(s, post, w, today);
    QuizCollectedMeans(s, post, w, today);
  }

  /** The corrected step keeps the run invariant. */
  lemma QuizStepRememberingKeepsInv(s: QuizState, post: Post, w: QuizWorld, today: MonthDay)
    requires QuizInv(s)
    ensures QuizInv(QuizStepRemembering(s, post, w, today))
  {
    var s' := QuizStep(s, post, w, today);
    QuizStepKeepsInv(s, post, w, today);
    InvKeptByOther(s', QuizStepRemembering(s, post, w, today));
  }

  lemma {:induction false} QuizRunRememberingKeepsInv(s: QuizState, posts: seq<Post>, worlds: seq<QuizWorld>,
                                                       today: MonthDay)
    requires |worlds| == |posts| && QuizInv(s)
    ensures QuizInv(QuizRunRemembering(s, posts, worlds, today))
    decreases |posts|
  {
    if posts != [] {
      var n := |posts| - 1;
      QuizRunRememberingKeepsInv(s, posts[..n], worlds[..n], today);
      QuizStepRememberingKeepsInv(QuizRunRemembering(s, posts[..n], worlds[..n], today), posts[n], worlds[n], today);
    }
  }

  /** With the corrected step, every post of the listing is settled by the
      history the run ends with. */
  lemma SettledGrows(seen: set<string>, seen': set<string>, post: Post, w: QuizWorld, today: MonthDay)
    requires seen <= seen' && Settled(seen, post, w, today)
    ensures Settled(seen', post, w, today)
  {
  }

  lemma {:induction false} QuizRunRememberingSettles(s: QuizState, posts: seq<Post>, worlds: seq<QuizWorld>,
                                                     today: MonthDay)
    requires |worlds| == |posts|
    ensures s.seen <= QuizRunRemembering(s, posts, worlds, today).seen
    ensures forall i :: 0 <= i < |posts| ==>
      Settled(QuizRunRemembering(s, posts, worlds, today).seen, posts[i], worlds[i], today)
    decreases |posts|
  {
    if posts != [] {
      var n := |posts| - 1;
      var mid := QuizRunRemembering(s, posts[..n], worlds[..n], today);
      var last := QuizStepRemembering(mid, posts[n], worlds[n], today);
      assert last == QuizRunRemembering(s, posts, worlds, today);
      QuizRunRememberingSettles(s, posts[..n], worlds[..n], today);
      RememberingStepSettles(mid, posts[n], worlds[n], today);
      assert Settled(last.seen, posts[n], worlds[n], today);
      forall i | 0 <= i < |posts| ensures Settled(last.seen, posts[i], worlds[i], today) {
        if i < n {
          assert posts[..n][i] == posts[i] && worlds[..n][i] == worlds[i];
          SettledGrows(mid.seen, last.seen, posts[i], worlds[i], today);
        } else {
          assert i == n;
        }
      }
    }
  }

  /** A run over posts that are all settled by its starting history
      collects nothing. */
  lemma {:induction false} SettledRunCollectsNothing(seen: set<string>, s: QuizState, posts: seq<Post>,
                                                     worlds: seq<QuizWorld>, today: MonthDay)
    requires |worlds| == |posts| && seen <= s.seen
    requires forall i :: 0 <= i < |posts| ==> Settled(seen, posts[i], worlds[i], today)
    ensures QuizRunRemembering(s, posts, worlds, today).collected == s.collected
    ensures QuizRunRemembering(s, posts, worlds, today).newCrawled == s.newCrawled
    decreases |posts|
  {
    if posts != [] {
      var n := |posts| - 1;
      var mid := QuizRunRemembering(s, posts[..n], worlds[..n], today);
      forall i | 0 <= i < n ensures Settled(seen, posts[..n][i], worlds[..n][i], today) {
        assert posts[..n][i] == posts[i] && worlds[..n][i] == worlds[i];
      }
      SettledRunCollectsNothing(seen, s, posts[..n], worlds[..n], today);
      QuizRunRememberingSettles(s, posts[..n], worlds[..n], today);
      SettledNotCollected(seen, mid, posts[n], worlds[n], today);
      ApplyOtherVerdict(mid, posts[n], QuizVerdictOf(mid, posts[n], worlds[n], today));
    }
  }

  /** Idempotence with the corrected step: a second run over the same
      listing and the same answers, from the history on disk after the
      first (written back only when the flag was set), collects nothing, so
      it registers no digest and writes nothing back. */
  lemma QuizRerunCollectsNothing(file: Option<seq<string>>, posts: seq<Post>, worlds: seq<QuizWorld>,
                                 today: MonthDay)
    requires |worlds| == |posts|
    ensures var seen0 := LoadSnapshot(file);
      var r1 := QuizRunRemembering(InitialQuizState(seen0), posts, worlds, today);
      var r2 := QuizRunRemembering(InitialQuizState(if r1.newCrawled then r1.seen else seen0), posts, worlds, today);
      r2.collected == [] && !r2.newCrawled
  {
    var seen0 := LoadSnapshot(file);
    var r1 := QuizRunRemembering(InitialQuizState(seen0), posts, worlds, today);
    if r1.newCrawled {
      QuizRunRememberingSettles(InitialQuizState(seen0), posts, worlds, today);
      SettledRunCollectsNothing(r1.seen, InitialQuizState(r1.seen), posts, worlds, today);
    } else {
      InitialQuizInv(seen0);
      QuizRunRememberingKeepsInv(InitialQuizState(seen0), posts, worlds, today);
    }
  }
}
