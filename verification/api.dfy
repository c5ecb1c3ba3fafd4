/** The API's request-authorization decision (`authorized`) and the
    conversion of stored posts into API posts (`getPosts`). Routing, JSON
    rendering and TLS are not modelled: a request is the header map and
    the cookies it carries, and a response is a status code with its body. */
module Api {
  import opened Types
  import Db
  import Security

  const StatusOK: int := 200
  const StatusBadRequest: int := 400

  const AuthorizationHeader: string := "Authorization"
  const SessionCookie: string := "sessionid"

  datatype Cookie = Cookie(name: string, value: string)

  /** An HTTP request as `authorized` sees it: the header map (key to the
      list of values sent under it) and the cookies in the order sent. */
  datatype Request = Request(header: map<string, seq<string>>, cookies: seq<Cookie>)

  /** `req.Header[key]`: the values under a key, none when it is absent. */
  function HeaderValues(req: Request, key: string): seq<string> {
    if key in req.header then req.header[key] else []
  }

  /** Position of the first cookie with this name, or the number of cookies when none has it. */
  function CookieIndex(cookies: seq<Cookie>, name: string): (k: nat)
    ensures k <= |cookies|
    ensures forall j :: 0 <= j < k ==> cookies[j].name != name
    ensures k < |cookies| ==> cookies[k].name == name
    decreases |cookies|
  {
    if |cookies| == 0 then 0
    else if cookies[0].name == name then 0
    else 1 + CookieIndex(cookies[1..], name)
  }

  /** `req.Cookie(name)`: the first cookie with that name, if any. */
  function FindCookie(cookies: seq<Cookie>, name: string): (r: Option<Cookie>)
    ensures r == None <==> forall j :: 0 <= j < |cookies| ==> cookies[j].name != name
    ensures r != None ==> r.value.name == name && r.value in cookies
    ensures r != None ==> exists k :: 0 <= k < |cookies| && r.value == cookies[k] &&
                                      forall j :: 0 <= j < k ==> cookies[j].name != name
  {
    var k := CookieIndex(cookies, name);
    if k < |cookies| then Some(cookies[k]) else None
  }

  /** `authorized`. A request carrying an `Authorization` header is refused
      whatever its cookies; one with neither that header nor a `sessionid`
      cookie is refused; otherwise the answer is exactly the session check's
      boolean for the cookie's value, its error discarded. It fails closed:
      it is true only when the store holds that session. */
  function Authorized(req: Request, db: Db.Database): (ok: bool)
    reads db
    ensures |HeaderValues(req, AuthorizationHeader)| > 0 ==> !ok
    ensures HeaderValues(req, AuthorizationHeader) == [] && FindCookie(req.cookies, SessionCookie) == None ==> !ok
    ensures HeaderValues(req, AuthorizationHeader) == [] && FindCookie(req.cookies, SessionCookie) != None ==>
              ok == Security.IsAuthenticated(db, FindCookie(req.cookies, SessionCookie).value.value).valid
    ensures ok ==> && HeaderValues(req, AuthorizationHeader) == []
                   && FindCookie(req.cookies, SessionCookie) != None
                   && FindCookie(req.cookies, SessionCookie).value.value in db.sessions
  {
    var authHeader := HeaderValues(req, AuthorizationHeader);
    if |authHeader| > 0 then
      false
    else
      match FindCookie(req.cookies, SessionCookie)
      case None => false
      case Some(cookie) => Security.IsAuthenticated(db, cookie.value).valid
  }

  /** `db.Post`, of which this model sees only the fields `getPosts` copies;
      the date and comment types stay abstract. */
  datatype DbPost<Date, Comments> =
    DbPost(content: string, author: string, date: Date, likes: int, comments: Comments, id: int)

  /** The API's `post` record. */
  datatype Post = Post(content: string, author: string, date: string, likes: int, comments: string, id: int)

  /** What `getPosts` writes: an error with 400, or the list of posts with 200. */
  datatype PostsResponse =
    | PostsError(status: int, error: Error)
    | PostsList(status: int, posts: seq<Post>)

  /** An API post copies a stored post field by field; the date and comments
      become text through the given formatters. */
  predicate Copies<Date, Comments>(p: Post, d: DbPost<Date, Comments>,
                                   showDate: Date -> string, showComments: Comments -> string) {
    && p.content == d.content && p.author == d.author && p.likes == d.likes && p.id == d.id
    && p.date == showDate(d.date) && p.comments == showComments(d.comments)
  }

  /** `getPosts`. `fetched` is what `db.GetAllPosts` returned; `showDate` and
      `showComments` stand for `Date.String()` and `fmt.Sprintf("%#v", ..)`.
      A failed lookup is answered with 400 and its error and builds no list;
      otherwise the answer is one API post per stored post, in the same order. */
  method GetPosts<Date, Comments>(fetched: Result<seq<DbPost<Date, Comments>>>,
                                  showDate: Date -> string, showComments: Comments -> string)
    returns (resp: PostsResponse)
    ensures fetched.Err? ==> resp == PostsError(StatusBadRequest, fetched.error)
    ensures fetched.Ok? ==>
              && resp.PostsList? && resp.status == StatusOK
              && |resp.posts| == |fetched.value|
              && forall k :: 0 <= k < |resp.posts| ==>
                   Copies(resp.posts[k], fetched.value[k], showDate, showComments)
  {
    if fetched.Err? {
      return PostsError(StatusBadRequest, fetched.error);
    }
    var rows := fetched.value;
    var posts: seq<Post> := [];
    for i := 0 to |rows|
      invariant |posts| == i
      invariant forall k :: 0 <= k < i ==> Copies(posts[k], rows[k], showDate, showComments)
    {
      var row := rows[i];
      var post := Post(row.content, row.author, showDate(row.date), row.likes,
                       showComments(row.comments), row.id);
      posts := posts + [post];
    }
    resp := PostsList(StatusOK, posts);
  }
}
