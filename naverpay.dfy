/** The naverpay crawler: the coupon-board rows that mention 네이버페이, the
    outbound URLs harvested from a post's body, and the run that registers
    them. */
module NaverPay {
  import opened Options
  import opened Text
  import opened Links
  import opened LinkApi

  // ---------------------------------------------------------------------
  // The listing

  const Marker: string := "네이버페이"

  /** Whether the listing keeps a row: its raw title text contains the
      marker.  The listing is `ListPosts(rows, KeepsRow)`. */
  predicate KeepsRow(row: ListingRow) {
    row.titleText.Some? && Contains(row.titleText.value, Marker)
  }

  /** Trimming cannot cut into a word without white space: a text that
      contains `w` still contains it once trimmed. */
  lemma TrimKeepsSpaceFreeInfix(s: string, w: string)
    requires w != [] && NoSpaces(w) && Contains(s, w)
    ensures Contains(Trim(s), w)
  {
    var i := SpaceFreeOccurrence(s, w);
    TrimKeepsInfix(s, i, |w|);
  }

  /** Where a space-free `w` occurs in `s`: both its ends are not white space. */
  lemma SpaceFreeOccurrence(s: string, w: string) returns (i: nat)
    requires w != [] && NoSpaces(w) && Contains(s, w)
    ensures i + |w| <= |s| && s[i..i + |w|] == w
    ensures !IsSpace(s[i]) && !IsSpace(s[i + |w| - 1])
  {
    i :| 0 <= i <= |s| && StartsWith(s[i..], w);
    assert s[i..][..|w|] == w;
    assert s[i..i + |w|] == w;
    assert s[i] == w[0] && s[i + |w| - 1] == w[|w| - 1];
  }

  lemma MarkerHasNoSpaces()
    ensures Marker != [] && NoSpaces(Marker)
  {
  }

  /** A kept row's post title (the trimmed text) still mentions the marker. */
  lemma KeptRowMentionsMarker(row: ListingRow)
    requires KeepsRow(row)
    ensures Contains(PostOfRow(row).title, Marker)
  {
    MarkerHasNoSpaces();
    TrimKeepsSpaceFreeInfix(row.titleText.value, Marker);
  }

  /** Every listed post's title still mentions the marker. */
  lemma ListedPostsMentionMarker(rows: seq<ListingRow>)
    ensures forall p :: p in ListPosts(rows, KeepsRow) ==> Contains(p.title, Marker)
  {
    ListPostsMembers(rows, KeepsRow);
    forall p | p in ListPosts(rows, KeepsRow) ensures Contains(p.title, Marker) {
      var row :| row in rows && row.titleText.Some? && KeepsRow(row) && PostOfRow(row) == p;
      KeptRowMentionsMarker(row);
    }
  }

  // ---------------------------------------------------------------------
  // The URL harvest

  /** An anchor of the post body: its text and its `href` attribute. */
  datatype Anchor = Anchor(text: string, href: Option<string>)

  /** The link redirector whose URLs are never harvested. */
  const Redirector: string := "s.ppomppu.co.kr"

  /** `/^https?:\/\//` matches and the value does not mention the redirector. */
  predicate IsHarvestable(u: string) {
    (StartsWith(u, "http://") || StartsWith(u, "https://")) && !Contains(u, Redirector)
  }

  /** What one anchor offers, in the order it is tried: its trimmed text,
      then its `href`, each only when harvestable. */
  function AnchorCandidates(a: Anchor): (us: seq<string>)
    ensures |us| <= 2
  {
    var txt := Trim(a.text);
    (if IsHarvestable(txt) then [txt] else [])
    + (if a.href.Some? && IsHarvestable(a.href.value) then [a.href.value] else [])
  }

  /** The values that `offer` gives for each element, in order. */
  function Flatten<T>(xs: seq<T>, offer: T -> seq<string>): seq<string> {
    if xs == [] then []
    else Flatten(xs[..|xs| - 1], offer) + offer(xs[|xs| - 1])
  }

  lemma {:induction false} FlattenConcat<T>(xs: seq<T>, ys: seq<T>, offer: T -> seq<string>)
    ensures Flatten(xs + ys, offer) == Flatten(xs, offer) + Flatten(ys, offer)
    decreases |ys|
  {
    if ys == [] {
      assert xs + ys == xs;
    } else {
      var n := |ys| - 1;
      assert (xs + ys)[..|xs + ys| - 1] == xs + ys[..n];
      assert (xs + ys)[|xs + ys| - 1] == ys[n];
      FlattenConcat(xs, ys[..n], offer);
    }
  }

  lemma {:induction false} FlattenMembers<T>(xs: seq<T>, offer: T -> seq<string>)
    ensures forall u :: u in Flatten(xs, offer) <==> exists x :: x in xs && u in offer(x)
    decreases |xs|
  {
    if xs != [] {
      var n := |xs| - 1;
      FlattenMembers(xs[..n], offer);
      assert forall x :: x in xs <==> x in xs[..n] || x == xs[n];
    }
  }

  /** Every value offered by the anchors, in document order, repeats included. */
  function Candidates(anchors: seq<Anchor>): seq<string> {
    Flatten(anchors, AnchorCandidates)
  }

  /** Every candidate is harvestable. */
  lemma CandidatesHarvestable(anchors: seq<Anchor>)
    ensures forall u :: u in Candidates(anchors) ==> IsHarvestable(u)
  {
    FlattenMembers(anchors, AnchorCandidates);
  }

  /** `Set.prototype.add` on an insertion-ordered set held as a sequence. */
  function SetAdd(acc: seq<string>, u: string): (r: seq<string>)
    ensures u in r && acc <= r
    ensures forall x :: x in r <==> x in acc || x == u
  {
    if u in acc then acc else acc + [u]
  }

  /** The set after adding `us` in order. */
  function AddAll(acc: seq<string>, us: seq<string>): seq<string> {
    if us == [] then acc else SetAdd(AddAll(acc, us[..|us| - 1]), us[|us| - 1])
  }

  /** `extractUrlsFromPost` once the page is in hand: no content element
      gives nothing; otherwise the candidates, duplicates dropped, in the
      order they were first seen. */
  function Harvest(content: Option<seq<Anchor>>): seq<string> {
    if content.None? then [] else AddAll([], Candidates(content.value))
  }

  predicate NoDuplicates(xs: seq<string>) {
    forall i, j :: 0 <= i < j < |xs| ==> xs[i] != xs[j]
  }

  lemma {:induction false} AddAllConcat(acc: seq<string>, xs: seq<string>, ys: seq<string>)
    ensures AddAll(acc, xs + ys) == AddAll(AddAll(acc, xs), ys)
    decreases |ys|
  {
    if ys == [] {
      assert xs + ys == xs;
    } else {
      var n := |ys| - 1;
      assert (xs + ys)[..|xs + ys| - 1] == xs + ys[..n];
      AddAllConcat(acc, xs, ys[..n]);
    }
  }

  /** Adding keeps what was there in place, holds exactly the old members
      and the added values, and never repeats a value. */
  lemma {:induction false} AddAllProperties(acc: seq<string>, us: seq<string>)
    requires NoDuplicates(acc)
    ensures acc <= AddAll(acc, us)
    ensures forall x :: x in AddAll(acc, us) <==> x in acc || x in us
    ensures NoDuplicates(AddAll(acc, us))
    decreases |us|
  {
    if us != [] {
      var n := |us| - 1;
      AddAllProperties(acc, us[..n]);
      assert forall x :: x in us <==> x in us[..n] || x == us[n];
    }
  }

  /** The harvest holds each harvestable value of the anchors exactly once. */
  lemma HarvestMembers(content: Option<seq<Anchor>>)
    ensures NoDuplicates(Harvest(content))
    ensures forall u :: u in Harvest(content) <==> content.Some? && u in Candidates(content.value)
    ensures forall u :: u in Harvest(content) ==> IsHarvestable(u)
  {
    if content.Some? {
      AddAllProperties([], Candidates(content.value));
      CandidatesHarvestable(content.value);
    }
  }

  /** First-seen order: the values harvested from the first `k` anchors
      come first, in the same order. */
  lemma HarvestKeepsFirstSeenOrder(anchors: seq<Anchor>, k: nat)
    requires k <= |anchors|
    ensures Harvest(Some(anchors[..k])) <= Harvest(Some(anchors))
  {
    assert anchors[..k] + anchors[k..] == anchors;
    FlattenConcat(anchors[..k], anchors[k..], AnchorCandidates);
    AddAllPrefix(Candidates(anchors[..k]), Candidates(anchors[k..]));
  }

  /** Adding more values after `xs` keeps the set built from `xs` in front. */
  lemma AddAllPrefix(xs: seq<string>, ys: seq<string>)
    ensures AddAll([], xs) <= AddAll([], xs + ys)
  {
    AddAllConcat([], xs, ys);
    AddAllProperties([], xs);
    AddAllProperties(AddAll([], xs), ys);
  }

  /** One anchor of the body scan: its trimmed text, then its `href`,
      each added to the set when harvestable. */
  method OfferAnchor(urlSet: seq<string>, a: Anchor) returns (r: seq<string>)
    ensures r == AddAll(urlSet, AnchorCandidates(a))
  {
    var txt := Trim(a.text);
    ghost var fromText: seq<string> := if IsHarvestable(txt) then [txt] else [];
    ghost var fromHref: seq<string> := if a.href.Some? && IsHarvestable(a.href.value) then [a.href.value] else [];
    assert AnchorCandidates(a) == fromText + fromHref;
    r := urlSet;
    if IsHarvestable(txt) {
      r := SetAdd(r, txt);
      AddAllOne(urlSet, txt);
    }
    assert r == AddAll(urlSet, fromText);
    ghost var mid := r;
    if a.href.Some? && IsHarvestable(a.href.value) {
      r := SetAdd(r, a.href.value);
      AddAllOne(mid, a.href.value);
    }
    assert r == AddAll(mid, fromHref);
    AddAllConcat(urlSet, fromText, fromHref);
  }

  lemma AddAllOne(acc: seq<string>, u: string)
    ensures AddAll(acc, [u]) == SetAdd(acc, u)
  {
    assert [u][..0] == [];
  }

  /** The candidates of one more anchor follow the earlier ones. */
  lemma CandidatesSnoc(anchors: seq<Anchor>, i: nat)
    requires i < |anchors|
    ensures Candidates(anchors[..i + 1]) == Candidates(anchors[..i]) + AnchorCandidates(anchors[i])
  {
    assert anchors[..i + 1][..i] == anchors[..i];
    assert anchors[..i + 1][i] == anchors[i];
  }

  /** The body scan of `extractUrlsFromPost`. */
  method HarvestUrls(content: Option<seq<Anchor>>) returns (urls: seq<string>)
    ensures urls == Harvest(content)
  {
    if content.None? {
      return [];
    }
    var anchors := content.value;
    var urlSet: seq<string> := [];
    for i := 0 to |anchors|
      invariant urlSet == AddAll([], Candidates(anchors[..i]))
    {
      urlSet := OfferAnchor(urlSet, anchors[i]);
      CandidatesSnoc(anchors, i);
      AddAllConcat([], Candidates(anchors[..i]), AnchorCandidates(anchors[i]));
    }
    assert anchors[..|anchors|] == anchors;
    return urlSet;
  }

  // ---------------------------------------------------------------------
  // Registering the harvested URLs

  /** The tag every harvested URL is registered with. */
  const NaverPayTag: string := "NPay적립"

  /** The `POST /links` body for one harvested URL: the URL and the tag. */
  function UrlRequest(u: string): (req: LinkRequest)
    ensures req.url == u && req.tags == Some([NaverPayTag])
    ensures req.title.None? && req.description.None? && req.thumbnail.None?
  {
    LinkRequest(u, None, None, None, Some([NaverPayTag]))
  }

  /** The requests sent for `urls`, one per URL, in order. */
  function Requests(urls: seq<string>): (reqs: seq<LinkRequest>)
    ensures |reqs| == |urls|
    ensures forall i :: 0 <= i < |urls| ==> reqs[i] == UrlRequest(urls[i])
  {
    if urls == [] then [] else Requests(urls[..|urls| - 1]) + [UrlRequest(urls[|urls| - 1])]
  }

  /** How many of `urls` the API accepted with a 2xx status. */
  function CountCreated(urls: seq<string>, register: string -> RegisterResponse): nat {
    if urls == [] then 0
    else CountCreated(urls[..|urls| - 1], register) + (if register(urls[|urls| - 1]) == Created then 1 else 0)
  }

  /** The count is at most the number of URLs, and zero exactly when no URL
      was accepted (a 409 or a failure does not count). */
  lemma {:induction false} CountCreatedBounds(urls: seq<string>, register: string -> RegisterResponse)
    ensures CountCreated(urls, register) <= |urls|
    ensures CountCreated(urls, register) == 0 <==> forall u :: u in urls ==> register(u) != Created
  {
    if urls != [] {
      var n := |urls| - 1;
      CountCreatedBounds(urls[..n], register);
      assert forall u :: u in urls <==> u in urls[..n] || u == urls[n];
    }
  }

  /** The inner loop of the main block: every URL is sent in turn; a 2xx
      counts, a 409 or any other failure does not. */
  method RegisterUrls(urls: seq<string>, register: string -> RegisterResponse)
    returns (registeredCount: nat, sent: seq<LinkRequest>)
    ensures registeredCount == CountCreated(urls, register)
    ensures sent == Requests(urls)
  {
    registeredCount, sent := 0, [];
    for j := 0 to |urls|
      invariant registeredCount == CountCreated(urls[..j], register)
      invariant sent == Requests(urls[..j])
    {
      assert urls[..j + 1][..j] == urls[..j];
      sent := sent + [UrlRequest(urls[j])];
      match register(urls[j])
      case Created =>
        registeredCount := registeredCount + 1;
      case Conflict =>
      case Failed =>
    }
    assert urls[..|urls|] == urls;
  }

  // ---------------------------------------------------------------------
  // The main loop

  /** What the outside world gives while one post is processed: the
      existence check's response, the post body's anchors (`None` when the
      page failed to load or has no content element), and the registration
      API's response to each URL. */
  datatype NaverPayWorld = NaverPayWorld(
    check: CheckResponse,
    content: Option<seq<Anchor>>,
    register: string -> RegisterResponse)

  /** Why the main loop moved on from a post. */
  datatype NaverPayVerdict =
    | NoLink
    | LocalDuplicate
    | RemoteDuplicate
    | Harvested(urls: seq<string>, registered: nat)

  /** The main loop's state.  `checked` and `fetched` record, in order, the
      links sent to the existence check and the posts whose body was read;
      `sent` the registration requests. */
  datatype NaverPayState = NaverPayState(
    seen: set<string>,
    newCrawled: bool,
    totalNewPosts: nat,
    totalSkippedPosts: nat,
    totalDbSkippedPosts: nat,
    totalUrlsRegistered: nat,
    checked: seq<string>,
    fetched: seq<string>,
    sent: seq<LinkRequest>)

  function InitialNaverPayState(seen: set<string>): NaverPayState {
    NaverPayState(seen, false, 0, 0, 0, 0, [], [], [])
  }

  /** The decision procedure, in the loop's order: link, local history,
      existence check, then the harvest and its registration. */
  function NaverPayVerdictOf(s: NaverPayState, post: Post, w: NaverPayWorld): (v: NaverPayVerdict)
    ensures v == NoLink <==> !HasLink(post)
    ensures v == LocalDuplicate <==> HasLink(post) && post.link.value in s.seen
    ensures v.Harvested? ==> v.urls == Harvest(w.content) && v.registered == CountCreated(v.urls, w.register)
  {
    if !HasLink(post) then NoLink
    else if post.link.value in s.seen then LocalDuplicate
    else if ExistsRemotely(w.check, s.seen, post.link.value) then RemoteDuplicate
    else
      var urls := Harvest(w.content);
      Harvested(urls, CountCreated(urls, w.register))
  }

  /** What a verdict does to the state. */
  function ApplyNaverPayVerdict(s: NaverPayState, post: Post, v: NaverPayVerdict): NaverPayState {
    var link := if post.link.Some? then post.link.value else [];
    match v
    case NoLink => s
    case LocalDuplicate => s.(totalSkippedPosts := s.totalSkippedPosts + 1)
    case RemoteDuplicate =>
      s.(checked := s.checked + [link],
         totalDbSkippedPosts := s.totalDbSkippedPosts + 1,
         seen := s.seen + {link})
    case Harvested(urls, n) =>
      s.(checked := s.checked + [link],
         fetched := s.fetched + [link],
         sent := s.sent + Requests(urls),
         totalUrlsRegistered := s.totalUrlsRegistered + n,
         newCrawled := s.newCrawled || n > 0,
         totalNewPosts := s.totalNewPosts + (if n > 0 then 1 else 0),
         seen := s.seen + {link})
  }

  /** One iteration of the main loop. */
  function NaverPayStep(s: NaverPayState, post: Post, w: NaverPayWorld): NaverPayState {
    ApplyNaverPayVerdict(s, post, NaverPayVerdictOf(s, post, w))
  }

  /** The main loop over the listed posts, each with its own world. */
  function NaverPayRun(s: NaverPayState, posts: seq<Post>, worlds: seq<NaverPayWorld>): NaverPayState
    requires |worlds| == |posts|
  {
    if posts == [] then s
    else
      var n := |posts| - 1;
      NaverPayStep(NaverPayRun(s, posts[..n], worlds[..n]), posts[n], worlds[n])
  }

  // ---------------------------------------------------------------------
  // What one step does

  /** A post already in the local history only bumps the local-skip count:
      no existence check, no page load, no registration. */
  lemma NaverPayLocalDuplicateIsQuiet(s: NaverPayState, post: Post, w: NaverPayWorld)
    requires HasLink(post) && post.link.value in s.seen
    ensures NaverPayStep(s, post, w) == s.(totalSkippedPosts := s.totalSkippedPosts + 1)
  {
  }

  /** When the existence check throws, a link outside the local history
      counts as absent: the step is the one for "does not exist", and the
      body is read. */
  lemma NaverPayTransportErrorMeansAbsent(s: NaverPayState, post: Post, content: Option<seq<Anchor>>,
                                          register: string -> RegisterResponse)
    requires HasLink(post) && post.link.value !in s.seen
    ensures NaverPayStep(s, post, NaverPayWorld(TransportError, content, register))
         == NaverPayStep(s, post, NaverPayWorld(Answered(false), content, register))
    ensures var s' := NaverPayStep(s, post, NaverPayWorld(TransportError, content, register));
      s'.fetched == s.fetched + [post.link.value]
  {
  }

  /** A link the API already knows is remembered locally and counted as a
      database skip; nothing is read or sent. */
  lemma NaverPayRemoteDuplicate(s: NaverPayState, post: Post, content: Option<seq<Anchor>>,
                                register: string -> RegisterResponse)
    requires HasLink(post) && post.link.value !in s.seen
    ensures NaverPayStep(s, post, NaverPayWorld(Answered(true), content, register))
         == s.(checked := s.checked + [post.link.value],
               totalDbSkippedPosts := s.totalDbSkippedPosts + 1,
               seen := s.seen + {post.link.value})
  {
  }

  /** Every post with a link ends up in the local history, whether or not
      anything was harvested or registered; a post without one changes
      nothing. */
  lemma NaverPayStepRemembers(s: NaverPayState, post: Post, w: NaverPayWorld)
    ensures HasLink(post) ==> NaverPayStep(s, post, w).seen == s.seen + {post.link.value}
    ensures !HasLink(post) ==> NaverPayStep(s, post, w) == s
  {
  }

  /** A read post sends one request per harvested URL, in first-seen order,
      each URL harvestable, none twice, all tagged; the post counts as new
      exactly when the API accepted at least one of them. */
  lemma NaverPayHarvestSends(s: NaverPayState, post: Post, w: NaverPayWorld)
    requires HasLink(post) && post.link.value !in s.seen
    requires !ExistsRemotely(w.check, s.seen, post.link.value)
    ensures var s' := NaverPayStep(s, post, w);
      var urls := Harvest(w.content);
      && s'.sent == s.sent + Requests(urls)
      && NoDuplicates(urls)
      && (forall u :: u in urls ==> IsHarvestable(u))
      && (s'.totalNewPosts == s.totalNewPosts + 1 <==> exists u :: u in urls && w.register(u) == Created)
      && s'.totalUrlsRegistered - s.totalUrlsRegistered <= |urls|
  {
    var urls := Harvest(w.content);
    HarvestMembers(w.content);
    CountCreatedBounds(urls, w.register);
  }

  // ---------------------------------------------------------------------
  // The run

  /** What every state of a run keeps: the flag is set exactly when some
      post counted as new, every new post registered at least one URL (and
      a registered URL makes its post new), and no more URLs were registered
      than requests were sent. */
  predicate NaverPayInv(s: NaverPayState) {
    && (s.newCrawled <==> s.totalNewPosts > 0)
    && s.totalNewPosts <= s.totalUrlsRegistered <= |s.sent|
    && (s.totalUrlsRegistered > 0 ==> s.totalNewPosts > 0)
  }

  lemma NaverPayStepKeepsInv(s: NaverPayState, post: Post, w: NaverPayWorld)
    requires NaverPayInv(s)
    ensures NaverPayInv(NaverPayStep(s, post, w))
    ensures s.seen <= NaverPayStep(s, post, w).seen
  {
    var v := NaverPayVerdictOf(s, post, w);
    if v.Harvested? {
      CountCreatedBounds(v.urls, w.register);
    }
  }

  lemma {:induction false} NaverPayRunKeepsInv(s: NaverPayState, posts: seq<Post>, worlds: seq<NaverPayWorld>)
    requires |worlds| == |posts|
    requires NaverPayInv(s)
    ensures NaverPayInv(NaverPayRun(s, posts, worlds))
    ensures s.seen <= NaverPayRun(s, posts, worlds).seen
  {
    if posts != [] {
      var n := |posts| - 1;
      NaverPayRunKeepsInv(s, posts[..n], worlds[..n]);
      NaverPayStepKeepsInv(NaverPayRun(s, posts[..n], worlds[..n]), posts[n], worlds[n]);
    }
  }

  /** A whole run from the history file: the flag says exactly whether a
      post counted as new, so the history is written back exactly then;
      every link the file held is still remembered. */
  lemma NaverPayRunFromFile(file: Option<seq<string>>, posts: seq<Post>, worlds: seq<NaverPayWorld>)
    requires |worlds| == |posts|
    ensures var s := NaverPayRun(InitialNaverPayState(LoadSnapshot(file)), posts, worlds);
      && (s.newCrawled <==> s.totalNewPosts > 0)
      && s.totalNewPosts <= s.totalUrlsRegistered <= |s.sent|
      && LoadSnapshot(file) <= s.seen
  {
    NaverPayRunKeepsInv(InitialNaverPayState(LoadSnapshot(file)), posts, worlds);
  }

  // ---------------------------------------------------------------------
  // Running twice

  /** After a run every listed post with a link is in the local history. */
  lemma {:induction false} NaverPayRunRemembersAll(s: NaverPayState, posts: seq<Post>, worlds: seq<NaverPayWorld>)
    requires |worlds| == |posts|
    ensures s.seen <= NaverPayRun(s, posts, worlds).seen
    ensures forall i :: 0 <= i < |posts| && HasLink(posts[i]) ==>
      posts[i].link.value in NaverPayRun(s, posts, worlds).seen
  {
    if posts != [] {
      var n := |posts| - 1;
      var mid := NaverPayRun(s, posts[..n], worlds[..n]);
      var last := NaverPayStep(mid, posts[n], worlds[n]);
      assert last == NaverPayRun(s, posts, worlds);
      NaverPayRunRemembersAll(s, posts[..n], worlds[..n]);
      NaverPayStepRemembers(mid, posts[n], worlds[n]);
      assert mid.seen <= last.seen;
      forall i | 0 <= i < |posts| && HasLink(posts[i]) ensures posts[i].link.value in last.seen {
        if i < n {
          assert posts[..n][i] == posts[i];
        }
      }
    }
  }

  /** A run over posts whose links are all in the local history only counts
      local skips: nothing is checked, read, sent or added. */
  lemma {:induction false} NaverPayRunOfKnown(s: NaverPayState, posts: seq<Post>, worlds: seq<NaverPayWorld>)
    requires |worlds| == |posts|
    requires forall i :: 0 <= i < |posts| && HasLink(posts[i]) ==> posts[i].link.value in s.seen
    ensures var r := NaverPayRun(s, posts, worlds);
      r == s.(totalSkippedPosts := r.totalSkippedPosts)
  {
    if posts != [] {
      var n := |posts| - 1;
      forall i | 0 <= i < n && HasLink(posts[..n][i]) ensures posts[..n][i].link.value in s.seen {
        assert posts[..n][i] == posts[i];
      }
      NaverPayRunOfKnown(s, posts[..n], worlds[..n]);
      var mid := NaverPayRun(s, posts[..n], worlds[..n]);
      if HasLink(posts[n]) {
        NaverPayLocalDuplicateIsQuiet(mid, posts[n], worlds[n]);
      } else {
        NaverPayStepRemembers(mid, posts[n], worlds[n]);
      }
    }
  }

  /** Running the crawler a second time over the same listing, with the
      same answers from the outside world, from the history the first run
      wrote back (or the untouched file) registers nothing new and leaves
      the file alone.  After a run that wrote the history back, the second
      run checks, reads and sends nothing; after one that did not, it
      repeats the first run exactly, none of whose URLs was accepted. */
  lemma NaverPayRerunRegistersNothing(file: Option<seq<string>>, posts: seq<Post>, worlds: seq<NaverPayWorld>)
    requires |worlds| == |posts|
    ensures var seen0 := LoadSnapshot(file);
      var r1 := NaverPayRun(InitialNaverPayState(seen0), posts, worlds);
      var r2 := NaverPayRun(InitialNaverPayState(if r1.newCrawled then r1.seen else seen0), posts, worlds);
      && !r2.newCrawled && r2.totalNewPosts == 0 && r2.totalUrlsRegistered == 0
      && (r1.newCrawled ==> r2.checked == [] && r2.fetched == [] && r2.sent == [] && r2.seen == r1.seen)
      && (!r1.newCrawled ==> r2 == r1)
  {
    var seen0 := LoadSnapshot(file);
    var r1 := NaverPayRun(InitialNaverPayState(seen0), posts, worlds);
    if r1.newCrawled {
      NaverPayRunRemembersAll(InitialNaverPayState(seen0), posts, worlds);
      NaverPayRunOfKnown(InitialNaverPayState(r1.seen), posts, worlds);
    } else {
      NaverPayRunKeepsInv(InitialNaverPayState(seen0), posts, worlds);
    }
  }

  /** What a run leaves behind: the loop's final state and the history
      written back (`None` when the file was left alone). */
  datatype NaverPayRunResult = NaverPayRunResult(state: NaverPayState, persisted: Option<set<string>>)

  /** The crawler's main block: load the history, walk the listed posts with
      the loop's early exits, harvest and register each new post's URLs,
      and write the history back when a post counted as new. */
  method NaverPayMain(file: Option<seq<string>>, posts: seq<Post>, worlds: seq<NaverPayWorld>)
    returns (out: NaverPayRunResult)
    requires |worlds| == |posts|
    ensures out.state == NaverPayRun(InitialNaverPayState(LoadSnapshot(file)), posts, worlds)
    ensures out.persisted == if out.state.newCrawled then Some(out.state.seen) else None
  {
    var seen := LoadSnapshot(file);
    ghost var s0 := InitialNaverPayState(seen);
    var newCrawled := false;
    var totalNewPosts: nat, totalSkippedPosts: nat, totalDbSkippedPosts: nat, totalUrlsRegistered: nat := 0, 0, 0, 0;
    var checked: seq<string> := [];
    var fetched: seq<string> := [];
    var sent: seq<LinkRequest> := [];
    for i := 0 to |posts|
      invariant NaverPayState(seen, newCrawled, totalNewPosts, totalSkippedPosts, totalDbSkippedPosts,
                              totalUrlsRegistered, checked, fetched, sent)
             == NaverPayRun(s0, posts[..i], worlds[..i])
    {
      assert posts[..i + 1][..i] == posts[..i] && worlds[..i + 1][..i] == worlds[..i];
      ghost var s := NaverPayState(seen, newCrawled, totalNewPosts, totalSkippedPosts, totalDbSkippedPosts,
                                   totalUrlsRegistered, checked, fetched, sent);
      var post := posts[i];
      ghost var v := NaverPayVerdictOf(s, post, worlds[i]);
      assert NaverPayRun(s0, posts[..i + 1], worlds[..i + 1]) == ApplyNaverPayVerdict(s, post, v);
      if post.link.None? || post.link.value == [] {
        assert v == NoLink;
        assert NaverPayState(seen, newCrawled, totalNewPosts, totalSkippedPosts, totalDbSkippedPosts,
                             totalUrlsRegistered, checked, fetched, sent) == ApplyNaverPayVerdict(s, post, v);
        continue;
      }
      var link := post.link.value;
      if link in seen {
        assert v == LocalDuplicate;
        totalSkippedPosts := totalSkippedPosts + 1;
        assert NaverPayState(seen, newCrawled, totalNewPosts, totalSkippedPosts, totalDbSkippedPosts,
                             totalUrlsRegistered, checked, fetched, sent) == ApplyNaverPayVerdict(s, post, v);
        continue;
      }
      checked := checked + [link];
      var existsInDb := ExistsRemotely(worlds[i].check, seen, link);
      if existsInDb {
        assert v == RemoteDuplicate;
        totalDbSkippedPosts := totalDbSkippedPosts + 1;
        seen := seen + {link};
        assert NaverPayState(seen, newCrawled, totalNewPosts, totalSkippedPosts, totalDbSkippedPosts,
                             totalUrlsRegistered, checked, fetched, sent) == ApplyNaverPayVerdict(s, post, v);
        continue;
      }
      fetched := fetched + [link];
      var urls := HarvestUrls(worlds[i].content);
      var registeredCount: nat, requests := RegisterUrls(urls, worlds[i].register);
      assert v == Harvested(urls, registeredCount);
      sent := sent + requests;
      totalUrlsRegistered := totalUrlsRegistered + registeredCount;
      if registeredCount > 0 {
        newCrawled := true;
        totalNewPosts := totalNewPosts + 1;
      }
      seen := seen + {link};
      assert NaverPayState(seen, newCrawled, totalNewPosts, totalSkippedPosts, totalDbSkippedPosts,
                             totalUrlsRegistered, checked, fetched, sent) == ApplyNaverPayVerdict(s, post, v);
    }
    assert posts[..|posts|] == posts && worlds[..|worlds|] == worlds;
    var state := NaverPayState(seen, newCrawled, totalNewPosts, totalSkippedPosts, totalDbSkippedPosts,
                               totalUrlsRegistered, checked, fetched, sent);
    var persisted: Option<set<string>> := None;
    if newCrawled {
      persisted := Some(seen);
    }
    out := NaverPayRunResult(state, persisted);
  }
}
