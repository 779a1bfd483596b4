/**
 * The two text helpers of the handler: `encodeHtml`, a chain of
 * `String.replace` calls, and `capitalize`, which the source installs on
 * `String.prototype` and which is a plain function here.
 */
module Format {
  import opened Strings

  /**
   * `encodeHtml(text)`: five global replacements, ampersand first, then a
   * replacement of `/` WITHOUT the `g` flag, so only the first slash is
   * escaped.
   */
  function EncodeHtml(text: string): (r: string)
  {
    ReplaceFirst(EscapeMarkup(text), '/', "&#x2F;")
  }

  /** The five global replacements of `encodeHtml`, in source order. */
  function EscapeMarkup(text: string): (r: string)
  {
    ReplaceAll(ReplaceAll(ReplaceAll(ReplaceAll(ReplaceAll(
      text, '&', "&amp;"), '<', "&lt;"), '>', "&gt;"), '\'', "&#39;"), '"', "&#34;")
  }

  // ---------------------------------------------------------------------
  // A character-by-character reference definition of the same escaping.

  /** The entity the global replacements give one character. */
  function EscapeChar(c: char): (e: string)
    ensures '<' !in e && '>' !in e && '\'' !in e && '"' !in e
    ensures (c == '/') == ('/' in e)
  {
    if c == '&' then "&amp;"
    else if c == '<' then "&lt;"
    else if c == '>' then "&gt;"
    else if c == '\'' then "&#39;"
    else if c == '"' then "&#34;"
    else [c]
  }

  /** Every character escaped on its own; `/` is left alone. */
  function EscapeEach(s: string): (r: string)
  {
    if s == [] then [] else EscapeChar(s[0]) + EscapeEach(s[1..])
  }

  /**
   * Reference for `encodeHtml`: characters before the first `/` are escaped
   * one by one, the first `/` becomes `&#x2F;`, and after it every character
   * except `/` is escaped.
   */
  function EncodeReference(s: string): (r: string)
  {
    if s == [] then []
    else if s[0] == '/' then "&#x2F;" + EscapeEach(s[1..])
    else EscapeChar(s[0]) + EncodeReference(s[1..])
  }

  /** The replacement chain is the per-character escaping. */
  lemma {:induction false} EscapeMarkupByCharacter(s: string)
    ensures EscapeMarkup(s) == EscapeEach(s)
  {
    if s != [] {
      assert s == [s[0]] + s[1..];
      EscapeMarkupConcat([s[0]], s[1..]);
      EscapeMarkupChar(s[0]);
      EscapeMarkupByCharacter(s[1..]);
    }
  }

  lemma EscapeMarkupChar(c: char)
    ensures EscapeMarkup([c]) == EscapeChar(c)
  {
    ReplaceAllOne(c, '&', "&amp;");
    if c == '&' {
      EscapedStays("&amp;", '<');
    } else {
      ReplaceAllOne(c, '<', "&lt;");
      if c == '<' {
        EscapedStays("&lt;", '>');
      } else {
        ReplaceAllOne(c, '>', "&gt;");
        if c == '>' {
          EscapedStays("&gt;", '\'');
        } else {
          ReplaceAllOne(c, '\'', "&#39;");
          ReplaceAllOne(c, '"', "&#34;");
          if c == '\'' {
            ReplaceAllAbsent("&#39;", '"', "&#34;");
          }
        }
      }
    }
  }

  /**
   * An entity free of the characters from `from` on in the chain `< > ' "`
   * passes the remaining replacements unchanged.
   */
  lemma EscapedStays(e: string, from: char)
    requires from == '<' || from == '>' || from == '\''
    requires (from == '<' ==> '<' !in e) && (from != '\'' ==> '>' !in e) && '\'' !in e && '"' !in e
    ensures from == '<' ==> ReplaceAll(ReplaceAll(ReplaceAll(ReplaceAll(
      e, '<', "&lt;"), '>', "&gt;"), '\'', "&#39;"), '"', "&#34;") == e
    ensures from == '>' ==> ReplaceAll(ReplaceAll(ReplaceAll(
      e, '>', "&gt;"), '\'', "&#39;"), '"', "&#34;") == e
    ensures ReplaceAll(ReplaceAll(e, '\'', "&#39;"), '"', "&#34;") == e
  {
    if from == '<' {
      ReplaceAllAbsent(e, '<', "&lt;");
    }
    if from != '\'' {
      ReplaceAllAbsent(e, '>', "&gt;");
    }
    ReplaceAllAbsent(e, '\'', "&#39;");
    ReplaceAllAbsent(e, '"', "&#34;");
  }

  lemma EscapeMarkupConcat(a: string, b: string)
    ensures EscapeMarkup(a + b) == EscapeMarkup(a) + EscapeMarkup(b)
  {
    var a1, b1 := ReplaceAll(a, '&', "&amp;"), ReplaceAll(b, '&', "&amp;");
    ReplaceAllConcat(a, b, '&', "&amp;");
    var a2, b2 := ReplaceAll(a1, '<', "&lt;"), ReplaceAll(b1, '<', "&lt;");
    ReplaceAllConcat(a1, b1, '<', "&lt;");
    var a3, b3 := ReplaceAll(a2, '>', "&gt;"), ReplaceAll(b2, '>', "&gt;");
    ReplaceAllConcat(a2, b2, '>', "&gt;");
    var a4, b4 := ReplaceAll(a3, '\'', "&#39;"), ReplaceAll(b3, '\'', "&#39;");
    ReplaceAllConcat(a3, b3, '\'', "&#39;");
    ReplaceAllConcat(a4, b4, '"', "&#34;");
  }

  /** Replacing the first slash of the escaped text is the reference. */
  lemma {:induction false} ReplaceFirstSlash(s: string)
    ensures ReplaceFirst(EscapeEach(s), '/', "&#x2F;") == EncodeReference(s)
  {
    if s != [] {
      var e := EscapeChar(s[0]);
      if s[0] == '/' {
        assert EscapeEach(s) == ['/'] + EscapeEach(s[1..]);
      } else {
        ReplaceFirstSkip(e, EscapeEach(s[1..]), '/', "&#x2F;");
        ReplaceFirstSlash(s[1..]);
      }
    }
  }

  /** `encodeHtml` is the character-by-character reference. */
  lemma EncodeHtmlByCharacter(s: string)
    ensures EncodeHtml(s) == EncodeReference(s)
  {
    EscapeMarkupByCharacter(s);
    ReplaceFirstSlash(s);
  }

  // ---------------------------------------------------------------------
  // What `encodeHtml` guarantees.

  /** The output holds no `<`, `>`, `'` or `"`. */
  lemma EncodeHtmlNoMarkup(s: string)
    ensures var r := EncodeHtml(s);
      '<' !in r && '>' !in r && '\'' !in r && '"' !in r
  {
    EncodeHtmlByCharacter(s);
    EncodeReferenceNoMarkup(s);
  }

  lemma {:induction false} EscapeEachNoMarkup(s: string)
    ensures var r := EscapeEach(s);
      '<' !in r && '>' !in r && '\'' !in r && '"' !in r
  {
    if s != [] {
      EscapeEachNoMarkup(s[1..]);
    }
  }

  lemma {:induction false} EncodeReferenceNoMarkup(s: string)
    ensures var r := EncodeReference(s);
      '<' !in r && '>' !in r && '\'' !in r && '"' !in r
  {
    if s != [] {
      if s[0] == '/' {
        EscapeEachNoMarkup(s[1..]);
      } else {
        EncodeReferenceNoMarkup(s[1..]);
      }
    }
  }

  /** Only the first slash is escaped: one slash fewer, unless there was none. */
  lemma EncodeHtmlSlashes(s: string)
    ensures Count(EncodeHtml(s), '/') == if Count(s, '/') == 0 then 0 else Count(s, '/') - 1
  {
    EncodeHtmlByCharacter(s);
    EncodeReferenceSlashes(s);
  }

  lemma {:induction false} EscapeEachSlashes(s: string)
    ensures Count(EscapeEach(s), '/') == Count(s, '/')
  {
    if s != [] {
      CountConcat(EscapeChar(s[0]), EscapeEach(s[1..]), '/');
      EscapeEachSlashes(s[1..]);
      if s[0] == '/' {
        assert EscapeChar(s[0]) == ['/'];
      } else {
        assert Count(EscapeChar(s[0]), '/') == 0;
      }
    }
  }

  lemma {:induction false} EncodeReferenceSlashes(s: string)
    ensures Count(EncodeReference(s), '/') == if Count(s, '/') == 0 then 0 else Count(s, '/') - 1
  {
    if s != [] {
      if s[0] == '/' {
        CountConcat("&#x2F;", EscapeEach(s[1..]), '/');
        EscapeEachSlashes(s[1..]);
      } else {
        CountConcat(EscapeChar(s[0]), EncodeReference(s[1..]), '/');
        EncodeReferenceSlashes(s[1..]);
        assert Count(EscapeChar(s[0]), '/') == 0;
      }
    }
  }

  /** Text without any of `& < > ' " /` passes through unchanged. */
  lemma EncodeHtmlPlain(s: string)
    requires '&' !in s && '<' !in s && '>' !in s && '\'' !in s && '"' !in s && '/' !in s
    ensures EncodeHtml(s) == s
  {
    EncodeHtmlByCharacter(s);
    EncodeReferencePlain(s);
  }

  lemma {:induction false} EncodeReferencePlain(s: string)
    requires '&' !in s && '<' !in s && '>' !in s && '\'' !in s && '"' !in s && '/' !in s
    ensures EncodeReference(s) == s
  {
    if s != [] {
      EncodeReferencePlain(s[1..]);
      assert s == [s[0]] + s[1..];
    }
  }

  // ---------------------------------------------------------------------
  // A decoder: `encodeHtml` loses no information.

  /** Maps the six entities `encodeHtml` produces back to their characters. */
  function DecodeHtml(s: string): (r: string)
    ensures |r| <= |s|
    decreases |s|
  {
    if s == [] then []
    else if "&amp;" <= s then "&" + DecodeHtml(s[5..])
    else if "&lt;" <= s then "<" + DecodeHtml(s[4..])
    else if "&gt;" <= s then ">" + DecodeHtml(s[4..])
    else if "&#39;" <= s then "'" + DecodeHtml(s[5..])
    else if "&#34;" <= s then "\"" + DecodeHtml(s[5..])
    else if "&#x2F;" <= s then "/" + DecodeHtml(s[6..])
    else [s[0]] + DecodeHtml(s[1..])
  }

  /** Decoding undoes one escaped character at the front. */
  lemma DecodeEscapedChar(c: char, t: string)
    ensures DecodeHtml(EscapeChar(c) + t) == [c] + DecodeHtml(t)
  {
    if c == '&' || c == '<' || c == '>' {
      DecodeEntity(c, t);
    } else if c == '\'' || c == '"' {
      DecodeNumericEntity(c, t);
    } else {
      var s := [c] + t;
      assert s[0] == c && s[1..] == t;
      assert !("&amp;" <= s) && !("&lt;" <= s) && !("&gt;" <= s);
      assert !("&#39;" <= s) && !("&#34;" <= s) && !("&#x2F;" <= s);
    }
  }

  lemma DecodeEntity(c: char, t: string)
    requires c == '&' || c == '<' || c == '>'
    ensures DecodeHtml(EscapeChar(c) + t) == [c] + DecodeHtml(t)
  {
    var e := EscapeChar(c);
    var s := e + t;
    assert s[..|e|] == e && s[|e|..] == t;
    if c == '<' {
      assert s[1] == 'l';
    } else if c == '>' {
      assert s[1] == 'g';
    }
  }

  lemma DecodeNumericEntity(c: char, t: string)
    requires c == '\'' || c == '"'
    ensures DecodeHtml(EscapeChar(c) + t) == [c] + DecodeHtml(t)
  {
    var e := EscapeChar(c);
    var s := e + t;
    assert s[..|e|] == e && s[|e|..] == t;
    if c == '\'' {
      assert s[1] == '#' && s[2] == '3' && s[3] == '9';
    } else {
      assert s[1] == '#' && s[2] == '3' && s[3] == '4';
    }
  }

  lemma {:induction false} DecodeEscapeEach(s: string)
    ensures DecodeHtml(EscapeEach(s)) == s
  {
    if s != [] {
      DecodeEscapedChar(s[0], EscapeEach(s[1..]));
      DecodeEscapeEach(s[1..]);
      assert s == [s[0]] + s[1..];
    }
  }

  lemma {:induction false} DecodeEncodeReference(s: string)
    ensures DecodeHtml(EncodeReference(s)) == s
  {
    if s != [] {
      if s[0] == '/' {
        var t := "&#x2F;" + EscapeEach(s[1..]);
        assert t[..6] == "&#x2F;" && t[6..] == EscapeEach(s[1..]);
        assert t[1] == '#' && t[2] == 'x';
        DecodeEscapeEach(s[1..]);
      } else {
        DecodeEscapedChar(s[0], EncodeReference(s[1..]));
        DecodeEncodeReference(s[1..]);
      }
      assert s == [s[0]] + s[1..];
    }
  }

  /** Round trip: decoding the output of `encodeHtml` gives back its input. */
  lemma DecodeEncodeHtml(s: string)
    ensures DecodeHtml(EncodeHtml(s)) == s
  {
    EncodeHtmlByCharacter(s);
    DecodeEncodeReference(s);
  }

  /** An ampersand becomes `&amp;`. */
  lemma EncodeHtmlAmpersand()
    ensures EncodeHtml("&") == "&amp;"
  {
    EncodeHtmlByCharacter("&");
    assert "&"[1..] == [];
    assert EncodeReference("&") == "&amp;" + EncodeReference([]);
  }

  /**
   * Of several slashes only the first is escaped: in text with nothing
   * else to escape, `a/b` becomes `a&#x2F;b` whatever slashes `b` holds.
   */
  lemma EncodeHtmlFirstSlashOnly(a: string, b: string)
    requires '&' !in a && '<' !in a && '>' !in a && '\'' !in a && '"' !in a && '/' !in a
    requires '&' !in b && '<' !in b && '>' !in b && '\'' !in b && '"' !in b
    ensures EncodeHtml(a + "/" + b) == a + "&#x2F;" + b
  {
    EncodeHtmlByCharacter(a + "/" + b);
    EncodeReferencePlainPrefix(a, "/" + b);
    assert a + "/" + b == a + ("/" + b);
    assert ("/" + b)[0] == '/' && ("/" + b)[1..] == b;
    EscapeEachPlain(b);
  }

  lemma {:induction false} EncodeReferencePlainPrefix(a: string, rest: string)
    requires '&' !in a && '<' !in a && '>' !in a && '\'' !in a && '"' !in a && '/' !in a
    ensures EncodeReference(a + rest) == a + EncodeReference(rest)
  {
    if a != [] {
      assert (a + rest)[0] == a[0] && (a + rest)[1..] == a[1..] + rest;
      assert EscapeChar(a[0]) == [a[0]];
      EncodeReferencePlainPrefix(a[1..], rest);
      assert a == [a[0]] + a[1..];
    } else {
      assert a + rest == rest;
    }
  }

  lemma {:induction false} EscapeEachPlain(s: string)
    requires '&' !in s && '<' !in s && '>' !in s && '\'' !in s && '"' !in s
    ensures EscapeEach(s) == s
  {
    if s != [] {
      EscapeEachPlain(s[1..]);
      assert s == [s[0]] + s[1..];
    }
  }

  // ---------------------------------------------------------------------
  // `String.prototype.capitalize`.

  /**
   * `s.charAt(0).toUpperCase() + s.slice(1).toLowerCase()`: the empty string
   * stays empty; otherwise the first character is upper-cased and the rest
   * lower-cased. Letters keep their identity, only their case changes.
   */
  function Capitalize(s: string): (r: string)
    ensures |r| == |s|
    ensures forall k :: 0 <= k < |s| ==> LowerChar(r[k]) == LowerChar(s[k])
    ensures |r| > 0 ==> !IsLowerAscii(r[0])
    ensures forall k :: 1 <= k < |r| ==> !IsUpperAscii(r[k])
  {
    if s == [] then [] else ToUpperCase(s[..1]) + ToLowerCase(s[1..])
  }

  /**
   * The four facts in `Capitalize`'s contract pin the result down: any
   * string that has them is `Capitalize(s)`.
   */
  lemma CapitalizeUnique(s: string, t: string)
    requires |t| == |s|
    requires forall k :: 0 <= k < |s| ==> LowerChar(t[k]) == LowerChar(s[k])
    requires |t| > 0 ==> !IsLowerAscii(t[0])
    requires forall k :: 1 <= k < |t| ==> !IsUpperAscii(t[k])
    ensures t == Capitalize(s)
  {
    var r := Capitalize(s);
    forall k | 0 <= k < |s|
      ensures t[k] == r[k]
    {
      SameLetter(t[k], r[k], k == 0);
    }
  }

  /** Two characters equal up to case, and both in the same case, are equal. */
  lemma SameLetter(a: char, b: char, upper: bool)
    requires LowerChar(a) == LowerChar(b)
    requires upper ==> !IsLowerAscii(a) && !IsLowerAscii(b)
    requires !upper ==> !IsUpperAscii(a) && !IsUpperAscii(b)
    ensures a == b
  {
  }

  lemma CapitalizeIdempotent(s: string)
    ensures Capitalize(Capitalize(s)) == Capitalize(s)
  {
    var r := Capitalize(s);
    CapitalizeUnique(r, r);
  }

  /** Characters other than ASCII letters are kept, so no `<` appears that was not there. */
  lemma CapitalizeKeepsOthers(s: string, c: char)
    requires !IsUpperAscii(c) && !IsLowerAscii(c)
    ensures (c in Capitalize(s)) <==> (c in s)
  {
    var r := Capitalize(s);
    if c in r {
      var k :| 0 <= k < |r| && r[k] == c;
      assert LowerChar(s[k]) == c;
    }
    if c in s {
      var k :| 0 <= k < |s| && s[k] == c;
      assert LowerChar(r[k]) == c;
    }
  }

  lemma CapitalizeExamples()
    ensures Capitalize("VIDEO") == "Video"
    ensures Capitalize("song") == "Song"
    ensures Capitalize("") == ""
  {
    CapitalizeUnique("VIDEO", "Video");
    CapitalizeUnique("song", "Song");
  }
}
