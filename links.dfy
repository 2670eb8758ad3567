/** Listing entries and the rule that turns a row's `href` into the post's
    absolute link, the dedup key all three crawlers use. */
module Links {
  import opened Options
  import opened Text

  /** The forum's canonical origin. */
  const Origin: string := "https://www.ppomppu.co.kr"

  /** The base a relative `href` such as `view.php?id=coupon&no=1` is resolved against. */
  const BoardBase: string := "https://www.ppomppu.co.kr/zboard/"

  /** A candidate post from a listing page: its trimmed title and its
      absolute link (`None` when the row's anchor had no `href`). */
  datatype Post = Post(title: string, link: Option<string>)

  /** A row of a board listing: the text of its title element (`None` when
      the row has none) and that element's `href`. */
  datatype ListingRow = ListingRow(titleText: Option<string>, href: Option<string>)

  /** The absolutization rule: an empty or missing `href` gives no link; one
      that starts with `/` is appended to the origin; anything else is
      appended to the board directory. */
  function Absolutize(href: Option<string>): (link: Option<string>)
    ensures link.None? <==> href.None? || href.value == []
    ensures link.Some? ==> StartsWith(link.value, Origin + "/") && EndsWith(link.value, href.value)
  {
    if href.None? || href.value == [] then None
    else if StartsWith(href.value, "/") then
      assert (Origin + href.value)[..|Origin| + 1] == Origin + href.value[..1];
      Some(Origin + href.value)
    else
      assert BoardBase == Origin + "/" + "zboard/";
      assert (BoardBase + href.value)[..|Origin| + 1] == Origin + "/";
      Some(BoardBase + href.value)
  }

  /** A board-relative `href` and the same path written from the root give the
      same dedup key. */
  lemma AbsolutizeRelativeIsRooted(h: string)
    requires h != [] && !StartsWith(h, "/")
    ensures Absolutize(Some(h)) == Absolutize(Some("/zboard/" + h))
  {
    var rooted := "/zboard/" + h;
    assert rooted[..1] == "/";
    assert Origin + rooted == BoardBase + h;
  }

  /** Distinct root-relative `href`s give distinct links. */
  lemma AbsolutizeRootedInjective(h1: string, h2: string)
    requires StartsWith(h1, "/") && StartsWith(h2, "/")
    requires Absolutize(Some(h1)) == Absolutize(Some(h2))
    ensures h1 == h2
  {
    assert h1 == (Origin + h1)[|Origin|..];
    assert h2 == (Origin + h2)[|Origin|..];
  }

  /** The post a row with a title becomes: the trimmed title and the
      absolutized link. */
  function PostOfRow(row: ListingRow): (p: Post)
    requires row.titleText.Some?
    ensures IsTrimmed(p.title) && |p.title| <= |row.titleText.value|
    ensures p.link.Some? <==> row.href.Some? && row.href.value != []
    ensures p.link.Some? ==> StartsWith(p.link.value, Origin + "/")
  {
    Post(Trim(row.titleText.value), Absolutize(row.href))
  }

  /** The main loops' `if (!post.link) continue`: the post has a non-empty link. */
  predicate HasLink(post: Post) {
    post.link.Some? && post.link.value != []
  }

  /** A board listing: the rows with a title that `keep` accepts, in page
      order, as posts. */
  function ListPosts(rows: seq<ListingRow>, keep: ListingRow -> bool): (posts: seq<Post>)
    ensures |posts| <= |rows|
  {
    if rows == [] then []
    else
      var n := |rows| - 1;
      var row := rows[n];
      ListPosts(rows[..n], keep) + if row.titleText.Some? && keep(row) then [PostOfRow(row)] else []
  }

  /** A post is listed exactly when some accepted row becomes it. */
  lemma {:induction false} ListPostsMembers(rows: seq<ListingRow>, keep: ListingRow -> bool)
    ensures forall p :: p in ListPosts(rows, keep) ==>
      exists row :: row in rows && row.titleText.Some? && keep(row) && PostOfRow(row) == p
    ensures forall row :: row in rows && row.titleText.Some? && keep(row) ==> PostOfRow(row) in ListPosts(rows, keep)
  {
    if rows != [] {
      var n := |rows| - 1;
      ListPostsMembers(rows[..n], keep);
      assert forall row :: row in rows <==> row in rows[..n] || row == rows[n];
    }
  }
}

/** The link-registration API as the crawlers see it: the existence check
    with its fall-back to the local set, the registration call's three
    outcomes, and the history file. */
module LinkApi {
  import opened Options

  /** What `POST /links/check` gave: `response.data.exists`, or a transport
      failure (the call threw). */
  datatype CheckResponse = Answered(present: bool) | TransportError

  /** What `POST /links` gave: a 2xx status, a 409, or any other failure. */
  datatype RegisterResponse = Created | Conflict | Failed

  /** A `POST /links` request body; absent members are `None`. */
  datatype LinkRequest = LinkRequest(
    url: string,
    title: Option<string>,
    description: Option<string>,
    thumbnail: Option<string>,
    tags: Option<seq<string>>)

  /** The existence check: the API's answer, or on a transport failure
      whether the local set already holds the key. */
  function ExistsRemotely(response: CheckResponse, seen: set<string>, key: string): bool {
    match response
    case Answered(present) => present
    case TransportError => key in seen
  }

  /** The history file loaded at start: the array's strings, or the empty
      set when the file is missing or does not parse. */
  function LoadSnapshot(file: Option<seq<string>>): (seen: set<string>)
    ensures forall key :: key in seen <==> file.Some? && key in file.value
  {
    if file.None? then {} else set key | key in file.value
  }
}
