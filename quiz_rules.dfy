/** The quiz crawler's title rules: the six categories and their keywords,
    the listing prefilter, the classifier, and the "today's date" rule. */
module QuizRules {
  import opened Options
  import opened Text
  import opened Links

  /** The six quiz categories, in the order the classifier tests them. */
  datatype Category =
    | KbPay
    | KbStarBanking
    | ShinhanSuperSol
    | ShinhanSolBaseball
    | ShinhanSolQuizPangPang
    | Hpoint

  /** A category's key in the keyword table, which is also its label in the digest. */
  function Key(c: Category): string {
    match c
    case KbPay => "KB Pay"
    case KbStarBanking => "KB스타뱅킹"
    case ShinhanSuperSol => "신한슈퍼SOL"
    case ShinhanSolBaseball => "신한쏠야구"
    case ShinhanSolQuizPangPang => "신한SOL퀴즈팡팡"
    case Hpoint => "Hpoint"
  }

  /** The keyword table, spelled as in the table (white space included). */
  function Keywords(c: Category): seq<string> {
    match c
    case KbPay => ["[KB Pay]"]
    case KbStarBanking => ["[KB스타뱅킹] 스타퀴즈"]
    case ShinhanSuperSol => ["[신한슈퍼SOL]"]
    case ShinhanSolBaseball => ["[신한쏠] 야구상식"]
    case ShinhanSolQuizPangPang => ["[신한플레이] 퀴즈팡팡"]
    case Hpoint => ["[Hpoint]", "[h.point]", "[H.point]"]
  }

  /** The position of a category in the classifier's order. */
  function Rank(c: Category): nat {
    match c
    case KbPay => 0
    case KbStarBanking => 1
    case ShinhanSuperSol => 2
    case ShinhanSolBaseball => 3
    case ShinhanSolQuizPangPang => 4
    case Hpoint => 5
  }

  const AllCategories: set<Category> :=
    {KbPay, KbStarBanking, ShinhanSuperSol, ShinhanSolBaseball, ShinhanSolQuizPangPang, Hpoint}

  lemma AllCategoriesCount()
    ensures forall c: Category :: c in AllCategories
    ensures |AllCategories| == 6
  {
    forall c: Category ensures c in AllCategories {
      match c
      case KbPay =>
      case KbStarBanking =>
      case ShinhanSuperSol =>
      case ShinhanSolBaseball =>
      case ShinhanSolQuizPangPang =>
      case Hpoint =>
    }
  }

  /** Some keyword of `keywords`, white space removed, occurs in `title`
      with its white space removed. */
  predicate MatchesAny(title: string, keywords: seq<string>) {
    exists k :: k in keywords && Contains(StripSpaces(title), StripSpaces(k))
  }

  predicate Matches(title: string, c: Category) {
    MatchesAny(title, Keywords(c))
  }

  /** The listing prefilter: the title matches some keyword of some category
      (the table's values scanned with white space removed on both sides). */
  predicate IsQuizPost(title: string) {
    exists c: Category :: Matches(title, c)
  }

  /** The classifier: white space removed from the title, the keywords
      tested in fixed order, already written without white space. */
  function CategorizeQuiz(title: string): (r: Option<Category>)
    ensures r.Some? ==> ClassifierTest(StripSpaces(title), r.value)
    ensures r.None? ==> forall c :: !ClassifierTest(StripSpaces(title), c)
  {
    var t := StripSpaces(title);
    if Contains(t, "[KBPay]") then Some(KbPay)
    else if Contains(t, "[KB스타뱅킹]스타퀴즈") then Some(KbStarBanking)
    else if Contains(t, "[신한슈퍼SOL]") then Some(ShinhanSuperSol)
    else if Contains(t, "[신한쏠]야구상식") then Some(ShinhanSolBaseball)
    else if Contains(t, "[신한플레이]퀴즈팡팡") then Some(ShinhanSolQuizPangPang)
    else if Contains(t, "[Hpoint]") || Contains(t, "[h.point]") || Contains(t, "[H.point]") then Some(Hpoint)
    else None
  }

  /** Whether the white-space-free title `t` holds one of the literals the
      classifier tests for `c`. */
  predicate ClassifierTest(t: string, c: Category) {
    match c
    case KbPay => Contains(t, "[KBPay]")
    case KbStarBanking => Contains(t, "[KB스타뱅킹]스타퀴즈")
    case ShinhanSuperSol => Contains(t, "[신한슈퍼SOL]")
    case ShinhanSolBaseball => Contains(t, "[신한쏠]야구상식")
    case ShinhanSolQuizPangPang => Contains(t, "[신한플레이]퀴즈팡팡")
    case Hpoint => Contains(t, "[Hpoint]") || Contains(t, "[h.point]") || Contains(t, "[H.point]")
  }

  /** The table's keywords with white space removed are exactly the
      literals the classifier tests, so matching the table and passing the
      classifier's test are the same thing. */
  lemma MatchesIsClassifierTest(title: string, c: Category)
    ensures Matches(title, c) <==> ClassifierTest(StripSpaces(title), c)
  {
    match c
    case KbPay => MatchesKbPay(title);
    case KbStarBanking => MatchesKbStarBanking(title);
    case ShinhanSuperSol => MatchesShinhanSuperSol(title);
    case ShinhanSolBaseball => MatchesShinhanSolBaseball(title);
    case ShinhanSolQuizPangPang => MatchesShinhanSolQuizPangPang(title);
    case Hpoint => MatchesHpoint(title);
  }

  lemma MatchesKbPay(title: string)
    ensures Matches(title, KbPay) <==> ClassifierTest(StripSpaces(title), KbPay)
  {
    assert Keywords(KbPay) == ["[KB Pay]"];
    assert "[KB Pay]" == "[KB" + " " + "Pay]";
    MatchesSpaced(title, Keywords(KbPay), "[KB", "Pay]");
  }

  lemma MatchesKbStarBanking(title: string)
    ensures Matches(title, KbStarBanking) <==> ClassifierTest(StripSpaces(title), KbStarBanking)
  {
    assert Keywords(KbStarBanking) == ["[KB스타뱅킹] 스타퀴즈"];
    assert "[KB스타뱅킹] 스타퀴즈" == "[KB스타뱅킹]" + " " + "스타퀴즈";
    MatchesSpaced(title, Keywords(KbStarBanking), "[KB스타뱅킹]", "스타퀴즈");
  }

  lemma MatchesShinhanSuperSol(title: string)
    ensures Matches(title, ShinhanSuperSol) <==> ClassifierTest(StripSpaces(title), ShinhanSuperSol)
  {
    MatchesUnspaced(title, Keywords(ShinhanSuperSol));
  }

  lemma MatchesShinhanSolBaseball(title: string)
    ensures Matches(title, ShinhanSolBaseball) <==> ClassifierTest(StripSpaces(title), ShinhanSolBaseball)
  {
    assert Keywords(ShinhanSolBaseball) == ["[신한쏠] 야구상식"];
    assert "[신한쏠] 야구상식" == "[신한쏠]" + " " + "야구상식";
    MatchesSpaced(title, Keywords(ShinhanSolBaseball), "[신한쏠]", "야구상식");
  }

  lemma MatchesShinhanSolQuizPangPang(title: string)
    ensures Matches(title, ShinhanSolQuizPangPang) <==> ClassifierTest(StripSpaces(title), ShinhanSolQuizPangPang)
  {
    assert Keywords(ShinhanSolQuizPangPang) == ["[신한플레이] 퀴즈팡팡"];
    assert "[신한플레이] 퀴즈팡팡" == "[신한플레이]" + " " + "퀴즈팡팡";
    MatchesSpaced(title, Keywords(ShinhanSolQuizPangPang), "[신한플레이]", "퀴즈팡팡");
  }

  lemma MatchesHpoint(title: string)
    ensures Matches(title, Hpoint) <==> ClassifierTest(StripSpaces(title), Hpoint)
  {
    var ks := Keywords(Hpoint);
    MatchesUnspaced(title, ks);
    assert ks[0] == "[Hpoint]" && ks[1] == "[h.point]" && ks[2] == "[H.point]";
  }

  /** A category whose one keyword is two space-free words joined by a space. */
  lemma MatchesSpaced(title: string, keywords: seq<string>, a: string, b: string)
    requires NoSpaces(a) && NoSpaces(b) && keywords == [a + " " + b]
    ensures MatchesAny(title, keywords) <==> Contains(StripSpaces(title), a + b)
  {
    StripSpacesJoin(a, b);
    assert a + " " + b in keywords;
  }

  /** A category whose keywords hold no white space. */
  lemma MatchesUnspaced(title: string, keywords: seq<string>)
    requires forall k :: k in keywords ==> NoSpaces(k)
    ensures MatchesAny(title, keywords) <==> exists k :: k in keywords && Contains(StripSpaces(title), k)
  {
    forall k | k in keywords ensures StripSpaces(k) == k {
      StripSpacesOfNoSpaces(k);
    }
  }

  /** The classifier answers with the first category, in classifier order,
      whose literal the white-space-free title holds, and with nothing when
      it holds none of them. */
  lemma CategorizeQuizFirstTest(title: string)
    ensures var r := CategorizeQuiz(title);
      && (r.Some? ==>
            ClassifierTest(StripSpaces(title), r.value)
            && forall c :: Rank(c) < Rank(r.value) ==> !ClassifierTest(StripSpaces(title), c))
      && (r.None? ==> forall c :: !ClassifierTest(StripSpaces(title), c))
  {
  }

  /** The same in terms of the keyword table: the classifier picks the
      first category whose keywords match, and gives nothing only when no
      category matches. */
  lemma CategorizeQuizFirstMatch(title: string)
    ensures var r := CategorizeQuiz(title);
      && (r.Some? ==>
            Matches(title, r.value)
            && forall c :: Rank(c) < Rank(r.value) ==> !Matches(title, c))
      && (r.None? ==> forall c :: !Matches(title, c))
  {
    forall c ensures Matches(title, c) <==> ClassifierTest(StripSpaces(title), c) {
      MatchesIsClassifierTest(title, c);
    }
    CategorizeQuizFirstTest(title);
  }

  /** The listing prefilter keeps a title exactly when the classifier
      gives it a category, so a listed post never meets the "no category"
      branch of the main loop. */
  lemma IsQuizPostIffCategorized(title: string)
    ensures IsQuizPost(title) <==> CategorizeQuiz(title).Some?
  {
    CategorizeQuizFirstMatch(title);
  }

  // ---------------------------------------------------------------------
  // The listing

  /** Whether the quiz listing keeps a row: it has a title whose trimmed
      text passes the prefilter.  The listing is `ListPosts(rows, KeepsRow)`. */
  predicate KeepsRow(row: ListingRow) {
    row.titleText.Some? && IsQuizPost(Trim(row.titleText.value))
  }

  /** Every listed post has a trimmed title the classifier accepts. */
  lemma ListedPostsAreCategorized(rows: seq<ListingRow>)
    ensures forall p :: p in ListPosts(rows, KeepsRow) ==> IsTrimmed(p.title) && CategorizeQuiz(p.title).Some?
  {
    ListPostsMembers(rows, KeepsRow);
    forall p | p in ListPosts(rows, KeepsRow) ensures IsTrimmed(p.title) && CategorizeQuiz(p.title).Some? {
      var row :| row in rows && row.titleText.Some? && KeepsRow(row) && PostOfRow(row) == p;
      IsQuizPostIffCategorized(p.title);
    }
  }

  // ---------------------------------------------------------------------
  // The date in a title: the first match of `M/D` or `M월D일`

  predicate IsDigit(c: char) {
    '0' <= c <= '9'
  }

  function DigitValue(c: char): nat
    requires IsDigit(c)
  {
    (c as int) - ('0' as int)
  }

  /** `parseInt` of a run of one or two digits at `t[i..i + n]`. */
  function NumberAt(t: string, i: nat, n: nat): (v: nat)
    requires 1 <= n <= 2 && i + n <= |t|
    requires forall k :: i <= k < i + n ==> IsDigit(t[k])
    ensures v <= 99
    ensures n == 1 ==> v == DigitValue(t[i])
  {
    if n == 1 then DigitValue(t[i]) else 10 * DigitValue(t[i]) + DigitValue(t[i + 1])
  }

  /** `\d{1,2}` followed by the character `stop`, at `i`: the number of
      digits the group takes once backtracking settles, or `None` when the
      pattern fails there. */
  function DigitsThen(t: string, i: nat, stop: char): (n: Option<nat>)
    requires !IsDigit(stop)
    ensures n.Some? ==> 1 <= n.value <= 2 && i + n.value < |t| && t[i + n.value] == stop
                        && forall k :: i <= k < i + n.value ==> IsDigit(t[k])
    ensures n.None? ==> !(i + 1 < |t| && IsDigit(t[i]) && t[i + 1] == stop)
                        && !(i + 2 < |t| && IsDigit(t[i]) && IsDigit(t[i + 1]) && t[i + 2] == stop)
  {
    if i + 2 < |t| && IsDigit(t[i]) && IsDigit(t[i + 1]) && t[i + 2] == stop then Some(2)
    else if i + 1 < |t| && IsDigit(t[i]) && t[i + 1] == stop then Some(1)
    else None
  }

  /** `\d{1,2}` at the end of the pattern, at `i`: greedy, two digits when
      there are two. */
  function TrailingDigits(t: string, i: nat): (n: Option<nat>)
    ensures n.Some? ==> 1 <= n.value <= 2 && i + n.value <= |t|
                        && forall k :: i <= k < i + n.value ==> IsDigit(t[k])
    ensures n.None? <==> !(i < |t| && IsDigit(t[i]))
    ensures n == Some(1) ==> !(i + 1 < |t| && IsDigit(t[i + 1]))
  {
    if i + 1 < |t| && IsDigit(t[i]) && IsDigit(t[i + 1]) then Some(2)
    else if i < |t| && IsDigit(t[i]) then Some(1)
    else None
  }

  /** A month and day as the title writes them (either may be 0). */
  datatype MonthDay = MonthDay(month: nat, day: nat)

  /** The first alternative, `(\d{1,2})\/(\d{1,2})`, at `p`. */
  function SlashDateAt(t: string, p: nat): (d: Option<MonthDay>)
    ensures d.Some? ==> d.value.month <= 99 && d.value.day <= 99
  {
    match DigitsThen(t, p, '/')
    case None => None
    case Some(m) =>
      match TrailingDigits(t, p + m + 1)
      case None => None
      case Some(n) => Some(MonthDay(NumberAt(t, p, m), NumberAt(t, p + m + 1, n)))
  }

  /** The second alternative, `(\d{1,2})월(\d{1,2})일`, at `p`. */
  function KoreanDateAt(t: string, p: nat): (d: Option<MonthDay>)
    ensures d.Some? ==> d.value.month <= 99 && d.value.day <= 99
  {
    match DigitsThen(t, p, '월')
    case None => None
    case Some(m) =>
      match DigitsThen(t, p + m + 1, '일')
      case None => None
      case Some(n) => Some(MonthDay(NumberAt(t, p, m), NumberAt(t, p + m + 1, n)))
  }

  /** The whole pattern at `p`: the first alternative, else the second. */
  function DateAt(t: string, p: nat): (d: Option<MonthDay>)
    ensures d.Some? ==> p < |t| && IsDigit(t[p])
  {
    if SlashDateAt(t, p).Some? then SlashDateAt(t, p) else KoreanDateAt(t, p)
  }

  /** The leftmost position at or after `from` where the pattern matches. */
  function FirstDateFrom(t: string, from: nat): (p: Option<nat>)
    decreases |t| - from
    ensures p.Some? ==> from <= p.value < |t| && DateAt(t, p.value).Some?
                        && forall q :: from <= q < p.value ==> DateAt(t, q).None?
    ensures p.None? ==> forall q :: from <= q ==> DateAt(t, q).None?
  {
    if from >= |t| then None
    else if DateAt(t, from).Some? then Some(from)
    else FirstDateFrom(t, from + 1)
  }

  /** `title.match(...)`: the month and day of the first match, if any. */
  function TitleDate(title: string): (d: Option<MonthDay>)
    ensures d.Some? ==> d.value.month <= 99 && d.value.day <= 99
  {
    match FirstDateFrom(title, 0)
    case None => None
    case Some(p) => DateAt(title, p)
  }

  /** The date rule: a title passes unless its first date has a non-zero
      month and day that differ from today's. */
  predicate DatePasses(title: string, today: MonthDay) {
    match TitleDate(title)
    case None => true
    case Some(d) => d.month == 0 || d.day == 0 || (d.month == today.month && d.day == today.day)
  }

  predicate NoDigits(t: string) {
    forall i :: 0 <= i < |t| ==> !IsDigit(t[i])
  }

  /** A worked example: the bare title "[Hpoint]" is an Hpoint quiz, and
      having no date it passes on any day. */
  lemma HpointTitleClassified(today: MonthDay)
    ensures CategorizeQuiz("[Hpoint]") == Some(Hpoint) && DatePasses("[Hpoint]", today)
  {
    var t := "[Hpoint]";
    HpointTitleStripped();
    HpointTitleNoOtherLiteral();
    ContainsAt(t, "[Hpoint]", 0);
    HpointTitleNoDigits();
    NoDigitsPasses(t, today);
  }

  lemma HpointTitleStripped()
    ensures StripSpaces("[Hpoint]") == "[Hpoint]"
  {
    assert NoSpaces("[Hpoint]");
    StripSpacesOfNoSpaces("[Hpoint]");
  }

  lemma HpointTitleNoDigits()
    ensures NoDigits("[Hpoint]")
  {
  }

  lemma HpointTitleNoOtherLiteral()
    ensures !Contains("[Hpoint]", "[KBPay]") && !Contains("[Hpoint]", "[KB스타뱅킹]스타퀴즈")
    ensures !Contains("[Hpoint]", "[신한슈퍼SOL]") && !Contains("[Hpoint]", "[신한쏠]야구상식")
    ensures !Contains("[Hpoint]", "[신한플레이]퀴즈팡팡")
  {
    var t := "[Hpoint]";
    MissingCharNotContained(t, "[KBPay]", 1);
    MissingCharNotContained(t, "[KB스타뱅킹]스타퀴즈", 1);
    MissingCharNotContained(t, "[신한슈퍼SOL]", 1);
    MissingCharNotContained(t, "[신한쏠]야구상식", 1);
    MissingCharNotContained(t, "[신한플레이]퀴즈팡팡", 1);
  }

  /** A title without digits has no date, so it always passes. */
  lemma NoDigitsPasses(title: string, today: MonthDay)
    requires NoDigits(title)
    ensures TitleDate(title).None? && DatePasses(title, today)
  {
  }

  /** A title whose first date is a valid day passes exactly on that day. */
  lemma DatePassesIffToday(title: string, today: MonthDay)
    requires TitleDate(title).Some?
    requires TitleDate(title).value.month != 0 && TitleDate(title).value.day != 0
    ensures DatePasses(title, today) <==> TitleDate(title).value == today
  {
  }

  /** The first date wins, and `M/D` is read with a one-digit month and a
      one-digit day when a non-digit follows: "8/9" before any other digit
      gives month 8, day 9. */
  lemma SlashDateOfTitle(prefix: string, m: char, d: char, rest: string)
    requires NoDigits(prefix) && IsDigit(m) && IsDigit(d)
    requires rest == [] || !IsDigit(rest[0])
    ensures TitleDate(prefix + [m, '/', d] + rest) == Some(MonthDay(DigitValue(m), DigitValue(d)))
  {
    var t := prefix + [m, '/', d] + rest;
    var i := |prefix|;
    assert t[i] == m && t[i + 1] == '/' && t[i + 2] == d;
    assert i + 3 < |t| ==> t[i + 3] == rest[0];
    assert SlashDateAt(t, i) == Some(MonthDay(DigitValue(m), DigitValue(d)));
    forall q | 0 <= q < i ensures DateAt(t, q).None? {
      assert t[q] == prefix[q];
    }
    assert DateAt(t, i).Some?;
    assert FirstDateFrom(t, 0) == Some(i);
  }

  /** `M월D일` with two-digit month and day: "12월25일" gives month 12, day 25. */
  lemma KoreanDateOfTitle(prefix: string, m1: char, m2: char, d1: char, d2: char, rest: string)
    requires NoDigits(prefix) && IsDigit(m1) && IsDigit(m2) && IsDigit(d1) && IsDigit(d2)
    ensures TitleDate(prefix + [m1, m2, '월', d1, d2, '일'] + rest)
         == Some(MonthDay(10 * DigitValue(m1) + DigitValue(m2), 10 * DigitValue(d1) + DigitValue(d2)))
  {
    var t := prefix + [m1, m2, '월', d1, d2, '일'] + rest;
    var i := |prefix|;
    assert t[i] == m1 && t[i + 1] == m2 && t[i + 2] == '월';
    assert t[i + 3] == d1 && t[i + 4] == d2 && t[i + 5] == '일';
    assert SlashDateAt(t, i).None?;
    assert KoreanDateAt(t, i) == Some(MonthDay(10 * DigitValue(m1) + DigitValue(m2), 10 * DigitValue(d1) + DigitValue(d2)));
    forall q | 0 <= q < i ensures DateAt(t, q).None? {
      assert t[q] == prefix[q];
    }
    assert DateAt(t, i).Some?;
    assert FirstDateFrom(t, 0) == Some(i);
  }

  /** A worked example: on August 10th a post titled for August 9th is
      skipped and one titled for August 10th passes; the day's two digits
      are read as one number. */
  lemma DatePassesOnSampleTitles()
    ensures !DatePasses("[Hpoint] 8/9 퀴즈", MonthDay(8, 10))
    ensures DatePasses("[Hpoint] 8/10 퀴즈", MonthDay(8, 10))
  {
    SampleTitleNinth();
    SampleTitleTenth();
  }

  lemma SampleTitleNinth()
    ensures TitleDate("[Hpoint] 8/9 퀴즈") == Some(MonthDay(8, 9))
  {
    assert NoDigits("[Hpoint] ");
    SlashDateOfTitle("[Hpoint] ", '8', '9', " 퀴즈");
    assert "[Hpoint] " + ['8', '/', '9'] + " 퀴즈" == "[Hpoint] 8/9 퀴즈";
  }

  lemma SampleTitleTenth()
    ensures TitleDate("[Hpoint] 8/10 퀴즈") == Some(MonthDay(8, 10))
  {
    var t := "[Hpoint] 8/10 퀴즈";
    assert t[9] == '8' && t[10] == '/' && t[11] == '1' && t[12] == '0' && t[13] == ' ';
    assert TrailingDigits(t, 11) == Some(2);
    assert SlashDateAt(t, 9) == Some(MonthDay(8, 10));
    forall q | 0 <= q < 9 ensures DateAt(t, q).None? { }
    assert FirstDateFrom(t, 0) == Some(9);
  }
}
