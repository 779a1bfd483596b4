/**
 * `main(request)`: the worker's answer to one request. The request is
 * reduced to its method and the path name of its URL; the call to the
 * MusicThread API is not made here but its outcome is a parameter, so that
 * the decision the handler takes for every outcome can be stated.
 */
module Handler {
  import opened Wrappers
  import opened Strings
  import opened Path
  import opened Feed

  /**
   * The body of the API response as `response.json()` sees it: not JSON at
   * all (the promise rejects), the JSON `null`, or any other JSON value.
   * For the latter, `error` is the text `${json.error}` gives when the
   * `error` member is neither `null` nor `undefined`, and `payload` is the
   * value read as a "get thread" response when it has that shape.
   */
  datatype Json =
    | Malformed
    | Null
    | Value(error: Option<string>, payload: Option<ThreadResponse>)

  /** The outcome of `fetch`: the promise rejects, or a response arrives. */
  datatype Fetched =
    | Unreachable
    | Received(status: nat, body: Json)

  datatype Response = Response(status: nat, body: string, contentType: string)

  /**
   * What the promise `main` returns settles to: a response, or the
   * exception thrown outside the `try` block, which escapes `main`.
   */
  datatype Outcome = Respond(response: Response) | Reject(error: JsError)

  /** What `main` does once the request is validated: answer at once, or call the API. */
  datatype Step = Reply(response: Response) | Fetch(url: string)

  const PlainText := "text/plain;charset=UTF-8"
  const Xml := "application/xml;charset=UTF-8"
  const FetchFailed := "Failed to fetch response" + " from MusicThread"
  const ThreadApi := "https://" + "musicthread.app" + "/api/v0/thread/"

  /** A response with a string body and no `Content-Type` given: the runtime's plain-text default. */
  function TextResponse(status: nat, body: string): Response
  {
    Response(status, body, PlainText)
  }

  /** The validation before the fetch: the method, then the path. */
  function Route(verb: string, pathname: string): (step: Step)
    ensures step.Fetch? <==> verb == "GET" && ParseThreadKey(pathname).Some?
  {
    if verb != "GET" then
      Reply(TextResponse(400, "Only GET is supported"))
    else match ParseThreadKey(pathname)
      case None =>
        Reply(TextResponse(404, "Unsupported request path, " + "expects valid MusicThread " + "thread path"))
      case Some(key) => Fetch(ThreadApi + key)
  }

  /**
   * The `try` block and what follows it, given the outcome of the fetch.
   * Inside the `try` every exception becomes a 500: a rejected fetch, a
   * body that is not JSON, and reading `error` of `null`. An upstream
   * status from 400 to 599 is passed on with its `error`, if any; a status
   * above 599 makes the `Response` constructor throw a RangeError (it
   * accepts 200 to 599 only), which the `catch` answers with 500. After the
   * `try`, `generateRssFeed` may throw, and nothing catches it.
   */
  function Settle(fetched: Fetched, now: string): Outcome
  {
    match fetched
    case Unreachable => Respond(TextResponse(500, FetchFailed))
    case Received(status, body) =>
      match body
      case Malformed => Respond(TextResponse(500, FetchFailed))
      case Null =>
        if status >= 400 then Respond(TextResponse(500, FetchFailed))
        else Reject(TypeError)
      case Value(error, payload) =>
        if status > 599 then Respond(TextResponse(500, FetchFailed))
        else if status >= 400 then
          Respond(TextResponse(status,
            match error
            case None => FetchFailed
            case Some(e) => FetchFailed + " (" + e + ")"))
        else
          match payload
          case None => Reject(TypeError)
          case Some(root) =>
            match RssFeed(root, now)
            case Throw(e) => Reject(e)
            case Normal(feed) => Respond(Response(200, feed, Xml))
  }

  /** `main(request)`, `fetched` standing for the outcome of the one API call it may make. */
  function HandleRequest(verb: string, pathname: string, fetched: Fetched, now: string): Outcome
  {
    match Route(verb, pathname)
    case Reply(response) => Respond(response)
    case Fetch(_) => Settle(fetched, now)
  }

  // ---------------------------------------------------------------------
  // Properties of the handler.

  /**
   * A request that is not a GET is answered 400 whatever its path and
   * without consulting the API: any two fetch outcomes give the same
   * answer.
   */
  lemma NonGetRejected(verb: string, pathname: string, f: Fetched, g: Fetched, now: string, later: string)
    requires verb != "GET"
    ensures HandleRequest(verb, pathname, f, now) == Respond(TextResponse(400, "Only GET is supported"))
    ensures HandleRequest(verb, pathname, f, now) == HandleRequest(verb, pathname, g, later)
  {
  }

  /** A GET whose path is not `/thread/<key>` is answered 404 without consulting the API. */
  lemma UnsupportedPathNotFound(pathname: string, f: Fetched, g: Fetched, now: string, later: string)
    requires ParseThreadKey(pathname).None?
    ensures var r := HandleRequest("GET", pathname, f, now);
      r.Respond? && r.response.status == 404 && r.response.contentType == PlainText
    ensures HandleRequest("GET", pathname, f, now) == HandleRequest("GET", pathname, g, later)
  {
  }

  /**
   * A GET of `/thread/<key>` calls the API for that key, and its answer is
   * decided by the outcome of that call alone.
   */
  lemma ThreadPathFetches(key: string, f: Fetched, now: string)
    requires key != [] && '/' !in key
    ensures Route("GET", "/thread/" + key) == Fetch(ThreadApi + key)
    ensures HandleRequest("GET", "/thread/" + key, f, now) == Settle(f, now)
  {
    ThreadPathAccepted(key);
  }

  /**
   * An upstream status from 400 to 599 is passed on, its body is the
   * standard message, followed by ` (<error>)` exactly when the JSON has an
   * `error` member.
   */
  lemma UpstreamErrorPassedOn(status: nat, error: Option<string>, payload: Option<ThreadResponse>, now: string)
    requires 400 <= status <= 599
    ensures var r := Settle(Received(status, Value(error, payload)), now);
      r.Respond? && r.response.status == status && r.response.contentType == PlainText &&
      FetchFailed <= r.response.body &&
      (r.response.body == FetchFailed <==> error.None?) &&
      (error.Some? ==> r.response.body[|FetchFailed|..] == " (" + error.value + ")")
  {
    if error.Some? {
      AfterPrefix(FetchFailed, " (" + error.value + ")", "");
      assert |FetchFailed + " (" + error.value + ")"| > |FetchFailed|;
    }
  }

  /**
   * An upstream status above 599 cannot be passed on: building the response
   * throws a RangeError inside the `try`, and the answer is 500 with the
   * standard message, whatever the JSON says.
   */
  lemma UpstreamStatusOutOfRange(status: nat, body: Json, now: string)
    requires status > 599
    ensures Settle(Received(status, body), now) == Respond(TextResponse(500, FetchFailed))
  {
  }

  /**
   * Failures inside the `try` block are answered 500 with the standard
   * message: the API cannot be reached, its body is not JSON (even when
   * its status is an error status, which is then not passed on), or the
   * body is `null` with an error status.
   */
  lemma FetchFailuresAre500(status: nat, now: string)
    ensures Settle(Unreachable, now) == Respond(TextResponse(500, FetchFailed))
    ensures Settle(Received(status, Malformed), now) == Respond(TextResponse(500, FetchFailed))
    ensures status >= 400 ==> Settle(Received(status, Null), now) == Respond(TextResponse(500, FetchFailed))
  {
  }

  /**
   * A successful API response is turned into the feed: answered 200 with
   * the XML content type and the feed as body when the thread has no tags,
   * and otherwise rejected with the ReferenceError of `generateRssFeed`.
   */
  lemma SuccessServesFeed(status: nat, error: Option<string>, root: ThreadResponse, now: string)
    requires status < 400
    ensures var r := Settle(Received(status, Value(error, Some(root))), now);
      (r.Respond? <==> root.thread.tags == []) &&
      (r.Respond? ==> r.response == Response(200, RssFeed(root, now).value, Xml)) &&
      (r.Reject? ==> r.error == ReferenceError("feedCategories"))
  {
    RssFeedThrowsIffTagged(root, now);
  }

  /**
   * A successful API response whose body is `null`, or not shaped as a
   * thread, makes `generateRssFeed` throw a TypeError, which is not caught.
   */
  lemma ShapelessBodyThrows(status: nat, error: Option<string>, now: string)
    requires status < 400
    ensures Settle(Received(status, Value(error, None)), now) == Reject(TypeError)
    ensures Settle(Received(status, Null), now) == Reject(TypeError)
  {
  }

  /**
   * Every answer the handler gives has one of the statuses 200, 400, 404
   * or 500, or the upstream status when that is from 400 to 599; 200 comes with
   * the XML content type and every other status with plain text.
   */
  lemma StatusCodes(verb: string, pathname: string, fetched: Fetched, now: string)
    ensures var o := HandleRequest(verb, pathname, fetched, now);
      o.Respond? ==>
        var s := o.response.status;
        (s in {200, 400, 404, 500} || (fetched.Received? && s == fetched.status && 400 <= s <= 599)) &&
        (o.response.contentType == Xml <==> s == 200) &&
        (s != 200 ==> o.response.contentType == PlainText)
  {
    var o := HandleRequest(verb, pathname, fetched, now);
    if o.Respond? && Route(verb, pathname).Fetch? && fetched.Received? {
      var s := fetched.status;
      if s < 400 && fetched.body.Value? && fetched.body.payload.Some? {
        var feed := RssFeed(fetched.body.payload.value, now);
        if feed.Normal? {
          assert o.response == Response(200, feed.value, Xml);
        }
      }
    }
  }

  /**
   * Nothing but a successful API response with a tagless thread is
   * answered 200, and an exception can only escape after a response with a
   * status below 400.
   */
  lemma OkOnlyForFeed(verb: string, pathname: string, fetched: Fetched, now: string)
    ensures var o := HandleRequest(verb, pathname, fetched, now);
      (o.Respond? && o.response.status == 200) <==>
        (Route(verb, pathname).Fetch? && fetched.Received? && fetched.status < 400 &&
         fetched.body.Value? && fetched.body.payload.Some? &&
         fetched.body.payload.value.thread.tags == [])
    ensures var o := HandleRequest(verb, pathname, fetched, now);
      o.Reject? ==> Route(verb, pathname).Fetch? && fetched.Received? && fetched.status < 400
  {
    var o := HandleRequest(verb, pathname, fetched, now);
    if Route(verb, pathname).Fetch? && fetched.Received? && fetched.body.Value? &&
       fetched.body.payload.Some? && fetched.status < 400 {
      RssFeedThrowsIffTagged(fetched.body.payload.value, now);
    }
  }

  /**
   * The API's answer for an unknown thread, a 404 whose JSON names the
   * error, is passed on as a 404 that names it too.
   */
  lemma ThreadNotFoundPassedOn(key: string, message: string, now: string)
    requires key != [] && '/' !in key
    ensures HandleRequest("GET", "/thread/" + key, Received(404, Value(Some(message), None)), now)
      == Respond(Response(404, FetchFailed + " (" + message + ")", PlainText))
  {
    ThreadPathFetches(key, Received(404, Value(Some(message), None)), now);
  }
}
