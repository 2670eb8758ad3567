/** The jjizzle crawler: two forum boards searched for one author's posts,
    each new post registered with its title, a board description and a
    fixed thumbnail, sponsor and consulting links excluded. */
module Jjizzle {
  import opened Options
  import opened Text
  import opened Links
  import opened LinkApi

  // ---------------------------------------------------------------------
  // The boards and their listings

  /** A board to crawl: its short name, its search URL and the name shown
      in the registered link's description. */
  datatype Target = Target(name: string, url: string, displayName: string)

  /** The two boards, in the order they are crawled. */
  const Targets: seq<Target> := [
    Target("phone",
           "https://www.ppomppu.co.kr/zboard/zboard.php?search_type=name&id=phone&page_num=30&keyword=%C1%E3%C1%F1",
           "휴대폰포럼"),
    Target("money",
           "https://www.ppomppu.co.kr/zboard/zboard.php?search_type=name&id=money&page_num=30&keyword=%C1%E3%C1%F1",
           "재테크포럼")
  ]

  /** Whether the listing keeps a row: a title anchor whose trimmed text is
      non-empty and whose `href` is non-empty.  The listing is
      `ListPosts(rows, KeepsRow)`. */
  predicate KeepsRow(row: ListingRow) {
    row.titleText.Some? && Trim(row.titleText.value) != [] && row.href.Some? && row.href.value != []
  }

  /** Every listed post has a non-empty trimmed title and an absolute link
      on the forum; every row with both becomes a listed post. */
  lemma ListedPostsHaveTitleAndLink(rows: seq<ListingRow>)
    ensures forall p :: p in ListPosts(rows, KeepsRow) ==>
      p.title != [] && IsTrimmed(p.title) && HasLink(p) && StartsWith(p.link.value, Origin + "/")
    ensures forall row :: row in rows && KeepsRow(row) ==> PostOfRow(row) in ListPosts(rows, KeepsRow)
  {
    ListPostsMembers(rows, KeepsRow);
    forall p | p in ListPosts(rows, KeepsRow)
      ensures p.title != [] && IsTrimmed(p.title) && HasLink(p) && StartsWith(p.link.value, Origin + "/")
    {
      var row :| row in rows && row.titleText.Some? && KeepsRow(row) && PostOfRow(row) == p;
      assert p.title == Trim(row.titleText.value);
    }
  }

  // ---------------------------------------------------------------------
  // One post

  /** The link mentions `sponsor` or `consulting`: never registered. */
  predicate IsBlocked(link: string) {
    Contains(link, "sponsor") || Contains(link, "consulting")
  }

  /** The `POST /links` body for a post found on `target`'s board. */
  function Payload(target: Target, title: string, link: string): (req: LinkRequest)
    ensures req.url == link && req.title == Some(title)
    ensures req.description == Some(target.displayName + " - 쥐즐")
    ensures req.thumbnail == Some("/icon_app_20160427.png") && req.tags.None?
  {
    LinkRequest(link, Some(title), Some(target.displayName + " - 쥐즐"), Some("/icon_app_20160427.png"), None)
  }

  /** What the outside world gives while one post is processed: the
      existence check's response and the registration's response. */
  datatype JjizzleWorld = JjizzleWorld(check: CheckResponse, register: RegisterResponse)

  /** A listed post together with what the world answers about it. */
  datatype Visit = Visit(post: Post, world: JjizzleWorld)

  /** Why the board loop moved on from a post. */
  datatype JjizzleVerdict =
    | NoLink
    | LocalDuplicate
    | Blocked
    | RemoteDuplicate
    | Registered
    | RegisterFailed

  /** The per-board counters, reset for each board. */
  datatype BoardTally = BoardTally(newPosts: nat, skippedPosts: nat, dbSkippedPosts: nat)

  /** The crawler's state.  `checked` records, in order, the links sent to
      the existence check, `sent` the registration requests. */
  datatype JjizzleState = JjizzleState(
    seen: set<string>,
    newCrawled: bool,
    totalNewPosts: nat,
    totalSkippedPosts: nat,
    totalDbSkippedPosts: nat,
    board: BoardTally,
    checked: seq<string>,
    sent: seq<LinkRequest>)

  function InitialJjizzleState(seen: set<string>): JjizzleState {
    JjizzleState(seen, false, 0, 0, 0, BoardTally(0, 0, 0), [], [])
  }

  /** The start of a board: its counters at zero, everything else kept. */
  function BoardStart(s: JjizzleState): JjizzleState {
    s.(board := BoardTally(0, 0, 0))
  }

  /** The decision procedure, in the loop's order: link, local history,
      block list, existence check, registration. */
  function JjizzleVerdictOf(s: JjizzleState, post: Post, w: JjizzleWorld): (v: JjizzleVerdict)
    ensures v == NoLink <==> !HasLink(post)
    ensures v == LocalDuplicate <==> HasLink(post) && post.link.value in s.seen
    ensures v == Blocked <==> HasLink(post) && post.link.value !in s.seen && IsBlocked(post.link.value)
    ensures v == Registered ==> w.register == Created
  {
    if !HasLink(post) then NoLink
    else if post.link.value in s.seen then LocalDuplicate
    else if IsBlocked(post.link.value) then Blocked
    else if ExistsRemotely(w.check, s.seen, post.link.value) then RemoteDuplicate
    else if w.register == Created then Registered
    else RegisterFailed
  }

  /** What a verdict does to the state. */
  function ApplyJjizzleVerdict(s: JjizzleState, target: Target, post: Post, v: JjizzleVerdict): JjizzleState {
    var link := if post.link.Some? then post.link.value else [];
    var b := s.board;
    match v
    case NoLink => s
    case LocalDuplicate =>
      s.(board := b.(skippedPosts := b.skippedPosts + 1), totalSkippedPosts := s.totalSkippedPosts + 1)
    case Blocked =>
      s.(board := b.(skippedPosts := b.skippedPosts + 1), totalSkippedPosts := s.totalSkippedPosts + 1)
    case RemoteDuplicate =>
      s.(checked := s.checked + [link],
         board := b.(dbSkippedPosts := b.dbSkippedPosts + 1),
         totalDbSkippedPosts := s.totalDbSkippedPosts + 1,
         seen := s.seen + {link})
    case Registered =>
      s.(checked := s.checked + [link],
         sent := s.sent + [Payload(target, post.title, link)],
         seen := s.seen + {link},
         newCrawled := true,
         board := b.(newPosts := b.newPosts + 1),
         totalNewPosts := s.totalNewPosts + 1)
    case RegisterFailed =>
      s.(checked := s.checked + [link],
         sent := s.sent + [Payload(target, post.title, link)],
         seen := s.seen + {link})
  }

  /** One iteration of a board's loop. */
  function JjizzleStep(s: JjizzleState, target: Target, visit: Visit): JjizzleState {
    ApplyJjizzleVerdict(s, target, visit.post, JjizzleVerdictOf(s, visit.post, visit.world))
  }

  /** A board's loop over its listed posts. */
  function BoardRun(s: JjizzleState, target: Target, visits: seq<Visit>): JjizzleState {
    if visits == [] then s
    else
      var n := |visits| - 1;
      JjizzleStep(BoardRun(s, target, visits[..n]), target, visits[n])
  }

  /** The outer loop over the boards, each with its listing. */
  function JjizzleRun(s: JjizzleState, targets: seq<Target>, listings: seq<seq<Visit>>): JjizzleState
    requires |listings| == |targets|
  {
    if targets == [] then s
    else
      var n := |targets| - 1;
      BoardRun(BoardStart(JjizzleRun(s, targets[..n], listings[..n])), targets[n], listings[n])
  }

  // ---------------------------------------------------------------------
  // What one step does

  /** A post already in the local history, from this board or an earlier
      one, only bumps the skip counters: no check, no registration. */
  lemma JjizzleLocalDuplicateIsQuiet(s: JjizzleState, target: Target, visit: Visit)
    requires HasLink(visit.post) && visit.post.link.value in s.seen
    ensures JjizzleStep(s, target, visit)
         == s.(board := s.board.(skippedPosts := s.board.skippedPosts + 1),
               totalSkippedPosts := s.totalSkippedPosts + 1)
  {
  }

  /** A sponsor or consulting link is counted as a skip and nothing else:
      it is neither checked, nor sent, nor remembered. */
  lemma BlockedLinkIgnored(s: JjizzleState, target: Target, visit: Visit)
    requires HasLink(visit.post) && visit.post.link.value !in s.seen && IsBlocked(visit.post.link.value)
    ensures JjizzleStep(s, target, visit)
         == s.(board := s.board.(skippedPosts := s.board.skippedPosts + 1),
               totalSkippedPosts := s.totalSkippedPosts + 1)
  {
  }

  /** A link the API already holds is checked, remembered and counted as a
      database skip on the board and in the totals; nothing is sent. */
  lemma JjizzleRemoteDuplicate(s: JjizzleState, target: Target, post: Post, register: RegisterResponse)
    requires HasLink(post) && post.link.value !in s.seen && !IsBlocked(post.link.value)
    ensures JjizzleStep(s, target, Visit(post, JjizzleWorld(Answered(true), register)))
         == s.(checked := s.checked + [post.link.value],
               board := s.board.(dbSkippedPosts := s.board.dbSkippedPosts + 1),
               totalDbSkippedPosts := s.totalDbSkippedPosts + 1,
               seen := s.seen + {post.link.value})
  {
  }

  /** When the existence check throws, a link outside the local history
      counts as absent: the step is the one for "does not exist", and the
      post is sent for registration. */
  lemma JjizzleTransportErrorMeansAbsent(s: JjizzleState, target: Target, post: Post, register: RegisterResponse)
    requires HasLink(post) && post.link.value !in s.seen && !IsBlocked(post.link.value)
    ensures JjizzleStep(s, target, Visit(post, JjizzleWorld(TransportError, register)))
         == JjizzleStep(s, target, Visit(post, JjizzleWorld(Answered(false), register)))
    ensures JjizzleStep(s, target, Visit(post, JjizzleWorld(TransportError, register))).sent
         == s.sent + [Payload(target, post.title, post.link.value)]
  {
  }

  /** Every link that got past the block list is remembered, whether the
      API already knew it, accepted it or refused it; a blocked link or a
      post without a link leaves the history as it was. */
  lemma JjizzleStepRemembers(s: JjizzleState, target: Target, visit: Visit)
    ensures var post := visit.post;
      JjizzleStep(s, target, visit).seen
        == if HasLink(post) && !IsBlocked(post.link.value) then s.seen + {post.link.value} else s.seen
  {
  }

  /** A post counts as new exactly when it was sent and the API accepted
      it; a refused registration (a 409 or any other failure) does not. */
  lemma JjizzleNewExactlyWhenCreated(s: JjizzleState, target: Target, visit: Visit)
    ensures var s' := JjizzleStep(s, target, visit);
      var post := visit.post;
      (s'.totalNewPosts == s.totalNewPosts + 1)
        <==> (&& HasLink(post) && post.link.value !in s.seen && !IsBlocked(post.link.value)
              && !ExistsRemotely(visit.world.check, s.seen, post.link.value)
              && visit.world.register == Created)
  {
  }

  // ---------------------------------------------------------------------
  // Runs

  /** What every state of a run keeps: the flag is set exactly when a post
      counted as new, every new post was sent, and every request sent was
      for a remembered, unblocked link. */
  predicate JjizzleInv(s: JjizzleState) {
    && (s.newCrawled <==> s.totalNewPosts > 0)
    && s.totalNewPosts <= |s.sent|
    && (forall i :: 0 <= i < |s.sent| ==> s.sent[i].url in s.seen && !IsBlocked(s.sent[i].url))
  }

  lemma JjizzleStepKeepsInv(s: JjizzleState, target: Target, visit: Visit)
    requires JjizzleInv(s)
    ensures JjizzleInv(JjizzleStep(s, target, visit))
    ensures s.seen <= JjizzleStep(s, target, visit).seen
  {
    var s' := JjizzleStep(s, target, visit);
    var v := JjizzleVerdictOf(s, visit.post, visit.world);
    if v == Registered || v == RegisterFailed {
      assert s'.sent == s.sent + [Payload(target, visit.post.title, visit.post.link.value)];
      forall i | 0 <= i < |s'.sent| ensures s'.sent[i].url in s'.seen && !IsBlocked(s'.sent[i].url) {
        if i < |s.sent| {
          assert s'.sent[i] == s.sent[i];
        }
      }
    }
  }

  /** The board counters move in lockstep with the totals: after a board,
      each total has grown by exactly that board's counter. */
  predicate Lockstep(base: JjizzleState, s: JjizzleState) {
    && s.totalNewPosts == base.totalNewPosts + s.board.newPosts
    && s.totalSkippedPosts == base.totalSkippedPosts + s.board.skippedPosts
    && s.totalDbSkippedPosts == base.totalDbSkippedPosts + s.board.dbSkippedPosts
  }

  lemma {:induction false} BoardRunKeepsInv(base: JjizzleState, s: JjizzleState, target: Target, visits: seq<Visit>)
    requires JjizzleInv(s) && Lockstep(base, s)
    ensures JjizzleInv(BoardRun(s, target, visits))
    ensures Lockstep(base, BoardRun(s, target, visits))
    ensures s.seen <= BoardRun(s, target, visits).seen
  {
    if visits != [] {
      var n := |visits| - 1;
      BoardRunKeepsInv(base, s, target, visits[..n]);
      JjizzleStepKeepsInv(BoardRun(s, target, visits[..n]), target, visits[n]);
    }
  }

  /** A board's counters account for exactly what its totals gained. */
  lemma BoardCountersInLockstep(s: JjizzleState, target: Target, visits: seq<Visit>)
    requires JjizzleInv(s)
    ensures Lockstep(s, BoardRun(BoardStart(s), target, visits))
  {
    BoardRunKeepsInv(s, BoardStart(s), target, visits);
  }

  lemma {:induction false} JjizzleRunKeepsInv(s: JjizzleState, targets: seq<Target>, listings: seq<seq<Visit>>)
    requires |listings| == |targets|
    requires JjizzleInv(s)
    ensures JjizzleInv(JjizzleRun(s, targets, listings))
    ensures s.seen <= JjizzleRun(s, targets, listings).seen
  {
    if targets != [] {
      var n := |targets| - 1;
      JjizzleRunKeepsInv(s, targets[..n], listings[..n]);
      var mid := JjizzleRun(s, targets[..n], listings[..n]);
      BoardRunKeepsInv(mid, BoardStart(mid), targets[n], listings[n]);
    }
  }

  /** A link remembered on an earlier board is skipped locally on a later
      one: the history is shared across boards and only grows. */
  lemma KnownLinkSkippedOnLaterBoard(s: JjizzleState, targets: seq<Target>, listings: seq<seq<Visit>>,
                                     target: Target, visits: seq<Visit>, visit: Visit)
    requires |listings| == |targets| && JjizzleInv(s)
    requires HasLink(visit.post) && visit.post.link.value in JjizzleRun(s, targets, listings).seen
    ensures var start := BoardStart(JjizzleRun(s, targets, listings));
      JjizzleVerdictOf(BoardRun(start, target, visits), visit.post, visit.world) == LocalDuplicate
  {
    var mid := JjizzleRun(s, targets, listings);
    JjizzleRunKeepsInv(s, targets, listings);
    BoardRunKeepsInv(mid, BoardStart(mid), target, visits);
  }

  /** A whole run from the history file: the flag says exactly whether a
      post counted as new, so the history is written back exactly then;
      no blocked link was ever sent; every link the file held is still
      remembered. */
  lemma JjizzleRunFromFile(file: Option<seq<string>>, listings: seq<seq<Visit>>)
    requires |listings| == |Targets|
    ensures var s := JjizzleRun(InitialJjizzleState(LoadSnapshot(file)), Targets, listings);
      && (s.newCrawled <==> s.totalNewPosts > 0)
      && s.totalNewPosts <= |s.sent|
      && (forall i :: 0 <= i < |s.sent| ==> !IsBlocked(s.sent[i].url))
      && LoadSnapshot(file) <= s.seen
  {
    JjizzleRunKeepsInv(InitialJjizzleState(LoadSnapshot(file)), Targets, listings);
  }

  // ---------------------------------------------------------------------
  // Running twice

  /** A post no later run will check: it has no link, its link is
      remembered, or the link is on the block list. */
  predicate Known(seen: set<string>, post: Post) {
    !HasLink(post) || post.link.value in seen || IsBlocked(post.link.value)
  }

  /** After a step the post is known, and the history only grew. */
  lemma JjizzleStepMakesKnown(s: JjizzleState, target: Target, visit: Visit)
    ensures s.seen <= JjizzleStep(s, target, visit).seen
    ensures Known(JjizzleStep(s, target, visit).seen, visit.post)
  {
    JjizzleStepRemembers(s, target, visit);
  }

  /** A known post only moves the skip counters. */
  lemma KnownPostSkipped(s: JjizzleState, target: Target, visit: Visit)
    requires Known(s.seen, visit.post)
    ensures var s' := JjizzleStep(s, target, visit);
      s' == s.(board := s'.board, totalSkippedPosts := s'.totalSkippedPosts)
  {
    if HasLink(visit.post) && visit.post.link.value in s.seen {
      JjizzleLocalDuplicateIsQuiet(s, target, visit);
    } else if HasLink(visit.post) {
      BlockedLinkIgnored(s, target, visit);
    }
  }

  /** After a board every post it listed is known. */
  lemma {:induction false} BoardRunMakesKnown(s: JjizzleState, target: Target, visits: seq<Visit>)
    ensures s.seen <= BoardRun(s, target, visits).seen
    ensures forall i :: 0 <= i < |visits| ==> Known(BoardRun(s, target, visits).seen, visits[i].post)
  {
    if visits != [] {
      var n := |visits| - 1;
      var mid := BoardRun(s, target, visits[..n]);
      var last := JjizzleStep(mid, target, visits[n]);
      assert last == BoardRun(s, target, visits);
      BoardRunMakesKnown(s, target, visits[..n]);
      JjizzleStepMakesKnown(mid, target, visits[n]);
      forall i | 0 <= i < |visits| ensures Known(last.seen, visits[i].post) {
        if i < n {
          assert visits[..n][i] == visits[i];
          assert Known(mid.seen, visits[i].post);
        } else {
          assert i == n;
        }
      }
    }
  }

  /** After a whole run every post any board listed is known. */
  lemma {:induction false} JjizzleRunMakesKnown(s: JjizzleState, targets: seq<Target>, listings: seq<seq<Visit>>)
    requires |listings| == |targets|
    ensures s.seen <= JjizzleRun(s, targets, listings).seen
    ensures forall k, i :: 0 <= k < |listings| && 0 <= i < |listings[k]| ==>
      Known(JjizzleRun(s, targets, listings).seen, listings[k][i].post)
  {
    if targets != [] {
      var n := |targets| - 1;
      var mid := JjizzleRun(s, targets[..n], listings[..n]);
      var last := BoardRun(BoardStart(mid), targets[n], listings[n]);
      assert last == JjizzleRun(s, targets, listings);
      JjizzleRunMakesKnown(s, targets[..n], listings[..n]);
      BoardRunMakesKnown(BoardStart(mid), targets[n], listings[n]);
      forall k, i | 0 <= k < |listings| && 0 <= i < |listings[k]| ensures Known(last.seen, listings[k][i].post) {
        if k < n {
          assert listings[..n][k] == listings[k];
          assert Known(mid.seen, listings[k][i].post);
        } else {
          assert k == n;
        }
      }
    }
  }

  /** A board whose posts are all known only moves the skip counters. */
  lemma {:induction false} BoardRunOfKnown(s: JjizzleState, target: Target, visits: seq<Visit>)
    requires forall i :: 0 <= i < |visits| ==> Known(s.seen, visits[i].post)
    ensures var r := BoardRun(s, target, visits);
      r == s.(board := r.board, totalSkippedPosts := r.totalSkippedPosts)
  {
    if visits != [] {
      var n := |visits| - 1;
      forall i | 0 <= i < n ensures Known(s.seen, visits[..n][i].post) {
        assert visits[..n][i] == visits[i];
      }
      BoardRunOfKnown(s, target, visits[..n]);
      KnownPostSkipped(BoardRun(s, target, visits[..n]), target, visits[n]);
    }
  }

  /** A run whose listed posts are all known only moves the skip counters:
      nothing is checked, sent or added. */
  lemma {:induction false} JjizzleRunOfKnown(s: JjizzleState, targets: seq<Target>, listings: seq<seq<Visit>>)
    requires |listings| == |targets|
    requires forall k, i :: 0 <= k < |listings| && 0 <= i < |listings[k]| ==> Known(s.seen, listings[k][i].post)
    ensures var r := JjizzleRun(s, targets, listings);
      r == s.(board := r.board, totalSkippedPosts := r.totalSkippedPosts)
  {
    if targets != [] {
      var n := |targets| - 1;
      forall k, i | 0 <= k < n && 0 <= i < |listings[..n][k]| ensures Known(s.seen, listings[..n][k][i].post) {
        assert listings[..n][k] == listings[k];
      }
      JjizzleRunOfKnown(s, targets[..n], listings[..n]);
      var mid := JjizzleRun(s, targets[..n], listings[..n]);
      BoardRunOfKnown(BoardStart(mid), targets[n], listings[n]);
    }
  }

  /** Running the crawler a second time over the same listings, with the
      same answers from the outside world, from the history the first run
      wrote back (or the untouched file) registers nothing new and leaves
      the file alone.  After a run that wrote the history back, the second
      run checks and sends nothing; after one that did not, it repeats the
      first run exactly, none of whose registrations was accepted. */
  lemma JjizzleRerunRegistersNothing(file: Option<seq<string>>, listings: seq<seq<Visit>>)
    requires |listings| == |Targets|
    ensures var seen0 := LoadSnapshot(file);
      var r1 := JjizzleRun(InitialJjizzleState(seen0), Targets, listings);
      var r2 := JjizzleRun(InitialJjizzleState(if r1.newCrawled then r1.seen else seen0), Targets, listings);
      && !r2.newCrawled && r2.totalNewPosts == 0
      && (r1.newCrawled ==> r2.checked == [] && r2.sent == [] && r2.seen == r1.seen)
      && (!r1.newCrawled ==> r2 == r1)
  {
    var seen0 := LoadSnapshot(file);
    var r1 := JjizzleRun(InitialJjizzleState(seen0), Targets, listings);
    if r1.newCrawled {
      JjizzleRunMakesKnown(InitialJjizzleState(seen0), Targets, listings);
      JjizzleRunOfKnown(InitialJjizzleState(r1.seen), Targets, listings);
    } else {
      JjizzleRunKeepsInv(InitialJjizzleState(seen0), Targets, listings);
    }
  }

  /** What a run leaves behind: the final state and the history written
      back (`None` when the file was left alone). */
  datatype JjizzleRunResult = JjizzleRunResult(state: JjizzleState, persisted: Option<set<string>>)

  /** One board's loop: each listed post in turn, with the loop's early
      exits, from the state the board starts in. */
  method CrawlBoard(start: JjizzleState, target: Target, visits: seq<Visit>) returns (out: JjizzleState)
    ensures out == BoardRun(start, target, visits)
  {
    var seen, newCrawled := start.seen, start.newCrawled;
    var totalNewPosts, totalSkippedPosts, totalDbSkippedPosts := start.totalNewPosts, start.totalSkippedPosts, start.totalDbSkippedPosts;
    var boardNewPosts, boardSkippedPosts, boardDbSkippedPosts := start.board.newPosts, start.board.skippedPosts, start.board.dbSkippedPosts;
    var checked, sent := start.checked, start.sent;
    for i := 0 to |visits|
      invariant JjizzleState(seen, newCrawled, totalNewPosts, totalSkippedPosts, totalDbSkippedPosts,
                            BoardTally(boardNewPosts, boardSkippedPosts, boardDbSkippedPosts), checked, sent)
             == BoardRun(start, target, visits[..i])
    {
      assert visits[..i + 1][..i] == visits[..i];
      ghost var s := JjizzleState(seen, newCrawled, totalNewPosts, totalSkippedPosts, totalDbSkippedPosts,
                                  BoardTally(boardNewPosts, boardSkippedPosts, boardDbSkippedPosts), checked, sent);
      var post := visits[i].post;
      var world := visits[i].world;
      ghost var v := JjizzleVerdictOf(s, post, world);
      assert BoardRun(start, target, visits[..i + 1]) == ApplyJjizzleVerdict(s, target, post, v);
      if post.link.None? || post.link.value == [] {
        assert v == NoLink;
        assert JjizzleState(seen, newCrawled, totalNewPosts, totalSkippedPosts, totalDbSkippedPosts,
                            BoardTally(boardNewPosts, boardSkippedPosts, boardDbSkippedPosts), checked, sent)
            == ApplyJjizzleVerdict(s, target, post, v);
        continue;
      }
      var link := post.link.value;
      if link in seen {
        assert v == LocalDuplicate;
        boardSkippedPosts := boardSkippedPosts + 1;
        totalSkippedPosts := totalSkippedPosts + 1;
        assert JjizzleState(seen, newCrawled, totalNewPosts, totalSkippedPosts, totalDbSkippedPosts,
                            BoardTally(boardNewPosts, boardSkippedPosts, boardDbSkippedPosts), checked, sent)
            == ApplyJjizzleVerdict(s, target, post, v);
        continue;
      }
      if Contains(link, "sponsor") || Contains(link, "consulting") {
        assert v == Blocked;
        boardSkippedPosts := boardSkippedPosts + 1;
        totalSkippedPosts := totalSkippedPosts + 1;
        assert JjizzleState(seen, newCrawled, totalNewPosts, totalSkippedPosts, totalDbSkippedPosts,
                            BoardTally(boardNewPosts, boardSkippedPosts, boardDbSkippedPosts), checked, sent)
            == ApplyJjizzleVerdict(s, target, post, v);
        continue;
      }
      checked := checked + [link];
      var existsInDb := ExistsRemotely(world.check, seen, link);
      if existsInDb {
        assert v == RemoteDuplicate;
        boardDbSkippedPosts := boardDbSkippedPosts + 1;
        totalDbSkippedPosts := totalDbSkippedPosts + 1;
        seen := seen + {link};
        assert JjizzleState(seen, newCrawled, totalNewPosts, totalSkippedPosts, totalDbSkippedPosts,
                            BoardTally(boardNewPosts, boardSkippedPosts, boardDbSkippedPosts), checked, sent)
            == ApplyJjizzleVerdict(s, target, post, v);
        continue;
      }
      sent := sent + [Payload(target, post.title, link)];
      if world.register == Created {
        assert v == Registered;
        seen := seen + {link};
        newCrawled := true;
        boardNewPosts := boardNewPosts + 1;
        totalNewPosts := totalNewPosts + 1;
      } else {
        assert v == RegisterFailed;
        seen := seen + {link};
      }
      assert JjizzleState(seen, newCrawled, totalNewPosts, totalSkippedPosts, totalDbSkippedPosts,
                           BoardTally(boardNewPosts, boardSkippedPosts, boardDbSkippedPosts), checked, sent)
           == ApplyJjizzleVerdict(s, target, post, v);
    }
    assert visits[..|visits|] == visits;
    out := JjizzleState(seen, newCrawled, totalNewPosts, totalSkippedPosts, totalDbSkippedPosts,
                        BoardTally(boardNewPosts, boardSkippedPosts, boardDbSkippedPosts), checked, sent);
  }

  /** The crawler's main block: load the history, crawl each board in turn
      with its counters reset, and write the history back when a post was
      registered. */
  method JjizzleMain(file: Option<seq<string>>, listings: seq<seq<Visit>>) returns (out: JjizzleRunResult)
    requires |listings| == |Targets|
    ensures out.state == JjizzleRun(InitialJjizzleState(LoadSnapshot(file)), Targets, listings)
    ensures out.persisted == if out.state.newCrawled then Some(out.state.seen) else None
  {
    var state := InitialJjizzleState(LoadSnapshot(file));
    ghost var s0 := state;
    for k := 0 to |Targets|
      invariant state == JjizzleRun(s0, Targets[..k], listings[..k])
    {
      assert Targets[..k + 1][..k] == Targets[..k] && listings[..k + 1][..k] == listings[..k];
      state := CrawlBoard(BoardStart(state), Targets[k], listings[k]);
    }
    assert Targets[..|Targets|] == Targets && listings[..|listings|] == listings;
    var persisted: Option<set<string>> := None;
    if state.newCrawled {
      persisted := Some(state.seen);
    }
    out := JjizzleRunResult(state, persisted);
  }
}
