/** `parseThreadKey`: the thread key in a request path `/thread/<key>`. */
module Path {
  import opened Wrappers
  import opened Strings

  /**
   * `pathname.substring(1).split("/")` must give exactly
   * `["thread", key]` with a non-empty `key`; anything else is `null`.
   * The first character of the path name (always `/` in a URL) is dropped
   * whatever it is, and `substring(1)` of the empty string is empty.
   */
  function ParseThreadKey(pathname: string): (key: Option<string>)
    ensures key.Some? ==> key.value != [] && '/' !in key.value
  {
    var components := Split(if pathname == [] then [] else pathname[1..], '/');
    if |components| != 2 then None
    else if components[0] != "thread" then None
    else if |components[1]| == 0 then None
    else Some(components[1])
  }

  /**
   * Exactly the paths `?thread/<key>` are accepted, `?` being any first
   * character and `<key>` any non-empty text without a slash, and the key
   * returned is that text.
   */
  lemma ParseThreadKeyExactly(pathname: string, key: string)
    ensures ParseThreadKey(pathname) == Some(key) <==>
      |pathname| >= 1 && pathname[1..] == "thread/" + key && key != [] && '/' !in key
  {
    if |pathname| >= 1 && pathname[1..] == "thread/" + key && key != [] && '/' !in key {
      assert "thread/" + key == Join(["thread", key], '/');
      SplitJoin(["thread", key], '/');
    }
    if ParseThreadKey(pathname) == Some(key) {
      var rest := if pathname == [] then [] else pathname[1..];
      var components := Split(rest, '/');
      JoinSplit(rest, '/');
      assert components == ["thread", key];
      assert Join(components, '/') == "thread" + ['/'] + key;
    }
  }

  /** Every path of the form `/thread/<key>` yields its key unchanged. */
  lemma ThreadPathAccepted(key: string)
    requires key != [] && '/' !in key
    ensures ParseThreadKey("/thread/" + key) == Some(key)
  {
    var p := "/thread/" + key;
    assert p[1..] == "thread/" + key;
    ParseThreadKeyExactly(p, key);
  }

  /** A path whose remainder does not hold exactly one slash is refused. */
  lemma WrongSegmentCountRefused(pathname: string)
    requires Count(if pathname == [] then [] else pathname[1..], '/') != 1
    ensures ParseThreadKey(pathname) == None
  {
  }

  /** Refused shapes: no key, an extra segment, another first segment. */
  lemma ParseThreadKeyRefusals()
    ensures ParseThreadKey("/thread/") == None
    ensures ParseThreadKey("/thread/abc/") == None
    ensures ParseThreadKey("/threads/abc") == None
    ensures ParseThreadKey("/") == None
    ensures ParseThreadKey("") == None
  {
    ThreadKeyRefused("/thread/");
    ThreadKeyRefused("/thread/abc/");
    ThreadKeyRefused("/threads/abc");
    ThreadKeyRefused("/");
    ThreadKeyRefused("");
  }

  lemma ThreadKeyRefused(pathname: string)
    requires !(|pathname| >= 1 && |pathname| >= 8 && pathname[1..8] == "thread/"
               && pathname[8..] != [] && '/' !in pathname[8..])
    ensures ParseThreadKey(pathname) == None
  {
    if ParseThreadKey(pathname).Some? {
      var key := ParseThreadKey(pathname).value;
      ParseThreadKeyExactly(pathname, key);
      assert false;
    }
  }
}
