/**
 * `generateItemContent` and `generateRssFeed`: a MusicThread thread and its
 * links rendered as an Atom feed by string concatenation. Each template is
 * written as the list of its pieces in source order (literal text and
 * values alternating), joined by `Concat`.
 */
module Feed {
  import opened Wrappers
  import opened Strings
  import opened Format

  datatype Author = Author(name: string)

  /** The `thread` object of the "get thread" response. */
  datatype Thread = Thread(
    key: string,
    title: string,
    description: Option<string>,
    tags: seq<string>,
    author: Author)

  /** One element of the response's `links` (`kind` is the JSON field `type`). */
  datatype Link = Link(
    key: string,
    title: string,
    artist: string,
    description: Option<string>,
    kind: string,
    thumbnailUrl: string,
    submittedAt: string)

  /** The whole JSON body of a successful "get thread" response. */
  datatype ThreadResponse = ThreadResponse(thread: Thread, links: seq<Link>)

  // Long template text is written as a concatenation of short literals:
  // the text is the same, and the verifier's cost grows with the square of
  // each literal's length.
  const XmlDeclaration := "<?xml" + " version=\"1.0\"" + " encoding=\"utf-8\"" + "?>"
  const Indent := "\n            "
  const LinkPage := "https://" + "musicthread.app" + "/link/"
  const ThreadPage := "https://" + "musicthread.app" + "/thread/"
  const FeedPage := "https://" + "feed.musicthread.app" + "/thread/"
  const HtmlTitle := "<title" + " type=\"html\">"
  const HtmlSummary := "<summary" + " type=\"html\">"
  const HtmlContent := "<content" + " type=\"html\">"

  /** `description?.length > 0`: present and not empty. */
  predicate HasText(description: Option<string>)
  {
    description.Some? && |description.value| > 0
  }

  // ---------------------------------------------------------------------
  // generateItemContent

  /**
   * The values `generateItemContent` interpolates into its template, title
   * and artist already escaped, the description already wrapped.
   */
  datatype ItemText = ItemText(
    thumbnailUrl: string, title: string, artist: string, paragraph: string, key: string)

  function ItemTextOf(link: Link): ItemText
  {
    ItemText(link.thumbnailUrl, EncodeHtml(link.title), EncodeHtml(link.artist),
      ItemParagraph(link.description), link.key)
  }

  /** The description, NOT escaped, in a paragraph, when it has text. */
  function ItemParagraph(description: Option<string>): string
  {
    if HasText(description) then "<p>" + description.value + "</p>" else ""
  }

  /** The template up to the optional paragraph: image and headings. */
  function ItemTopPieces(t: ItemText): seq<string>
  {
    [ "<img src=\"" + t.thumbnailUrl + "\">",
      "\n    ", "<h1>" + t.title + "</h1>",
      "\n    ", "<h3>by " + t.artist + "</h3>" ]
  }

  /** The closing paragraph linking back to MusicThread. */
  function ItemFooter(key: string): string
  {
    "<p><a href=\"" + LinkPage + key + "\">" + "Open in MusicThread" + "</a></p>"
  }

  function ItemPieces(t: ItemText): seq<string>
  {
    ItemTopPieces(t) + [t.paragraph, ItemFooter(t.key)]
  }

  /** The HTML shown for one link: image, title, artist, optional description, link back. */
  function ItemContent(link: Link): string
  {
    Concat(ItemPieces(ItemTextOf(link)))
  }

  /** The content up to the optional paragraph. */
  function ItemTop(link: Link): string
  {
    Concat(ItemTopPieces(ItemTextOf(link)))
  }

  lemma ItemLayout(t: ItemText)
    ensures Concat(ItemPieces(t)) == Concat(ItemTopPieces(t)) + t.paragraph + ItemFooter(t.key)
  {
    ConcatAppend(ItemTopPieces(t), [t.paragraph, ItemFooter(t.key)]);
    ConcatTwo(t.paragraph, ItemFooter(t.key));
  }

  /**
   * The description paragraph is there exactly when the description has
   * text: without text the content is that of the same link with no
   * description at all; with text it is that content with the raw
   * `<p>description</p>` inserted just before the closing link paragraph.
   */
  lemma ItemContentParagraph(link: Link)
    ensures var bare := ItemContent(link.(description := None));
      var at := |ItemTop(link)|;
      at <= |bare| &&
      (!HasText(link.description) ==> ItemContent(link) == bare) &&
      (HasText(link.description) ==>
        ItemContent(link) == bare[..at] + "<p>" + link.description.value + "</p>" + bare[at..])
  {
    var t, u := ItemTextOf(link), ItemTextOf(link.(description := None));
    assert u == t.(paragraph := "");
    ItemLayout(t);
    ItemLayout(u);
    assert ItemTopPieces(u) == ItemTopPieces(t);
    if HasText(link.description) {
      ParagraphSplice(ItemTop(link), link.description.value, ItemFooter(link.key));
    }
  }

  lemma ParagraphSplice(top: string, text: string, footer: string)
    ensures var bare := top + "" + footer;
      |top| <= |bare| &&
      top + ("<p>" + text + "</p>") + footer == bare[..|top|] + "<p>" + text + "</p>" + bare[|top|..]
  {
    var bare := top + "" + footer;
    assert bare[..|top|] == top && bare[|top|..] == footer;
  }

  lemma ItemTextHeadings(t: ItemText)
    ensures "<img src=\"" + t.thumbnailUrl + "\">" <= Concat(ItemPieces(t))
    ensures Contains(Concat(ItemPieces(t)), "<h1>" + t.title + "</h1>")
    ensures Contains(Concat(ItemPieces(t)), "<h3>by " + t.artist + "</h3>")
  {
    var ps := ItemPieces(t);
    assert Concat(ps) == ps[0] + Concat(ps[1..]);
    ConcatContainsPiece(ps, 2);
    ConcatContainsPiece(ps, 4);
  }

  /** Title and artist appear escaped in the content's headings, after the thumbnail image. */
  lemma ItemContentHeadings(link: Link)
    ensures "<img src=\"" + link.thumbnailUrl + "\">" <= ItemContent(link)
    ensures Contains(ItemContent(link), "<h1>" + EncodeHtml(link.title) + "</h1>")
    ensures Contains(ItemContent(link), "<h3>by " + EncodeHtml(link.artist) + "</h3>")
  {
    ItemTextHeadings(ItemTextOf(link));
  }

  // ---------------------------------------------------------------------
  // generateRssFeed

  /**
   * The values interpolated into one `<entry>`, escaped where the source
   * escapes them; `category` is the capitalized link type.
   */
  datatype EntryText = EntryText(
    title: string, key: string, submittedAt: string, artist: string, category: string,
    summary: string, thumbnailUrl: string, content: string)

  function EntryTextOf(link: Link): EntryText
  {
    EntryText(EncodeHtml(link.title), link.key, link.submittedAt, EncodeHtml(link.artist),
      Capitalize(link.kind), EntrySummary(link.description), link.thumbnailUrl,
      EncodeHtml(ItemContent(link)))
  }

  /** The escaped description in a `<summary>`, when it has text. */
  function EntrySummary(description: Option<string>): string
  {
    if HasText(description)
    then HtmlSummary + EncodeHtml(description.value) + "</summary>"
    else ""
  }

  /** The entry template up to and including the `type` category. */
  function EntryHeadPieces(t: EntryText): seq<string>
  {
    [ "<entry>",
      Indent, HtmlTitle + t.title + "</title>",
      Indent, "<link href=\"" + LinkPage + t.key + "\"" + " rel=\"alternate\"" + " title=\""
              + t.title + "\"" + " type=\"text/html\"/>",
      Indent, "<published>" + t.submittedAt + "</published>",
      Indent, "<updated>" + t.submittedAt + "</updated>",
      Indent, "<id>" + LinkPage + t.key + "</id>",
      Indent, "<author>" + "\n                " + "<name>" + t.artist + "</name>" + Indent + "</author>",
      Indent, "<category" + " term=\"type\"" + " label=\"" + t.category + "\"/>" ]
  }

  /** The entry template after the optional summary. */
  function EntryTailPieces(t: EntryText): seq<string>
  {
    [ "<media:thumbnail" + " url=\"" + t.thumbnailUrl + "\""
        + " xmlns:media=\"" + "http://search.yahoo.com" + "/mrss/\"/>",
      Indent, HtmlContent + t.content + "</content>",
      "\n        ", "</entry>" ]
  }

  function EntryPieces(t: EntryText): seq<string>
  {
    EntryHeadPieces(t) + [t.summary] + EntryTailPieces(t)
  }

  /** One `<entry>` for a link. */
  function Entry(link: Link): string
  {
    Concat(EntryPieces(EntryTextOf(link)))
  }

  /** The entry up to and including its `type` category. */
  function EntryHead(link: Link): string
  {
    Concat(EntryHeadPieces(EntryTextOf(link)))
  }

  /**
   * The values interpolated into the feed's opening lines: the generation
   * time, the escaped author name, the thread key, the raw title and the
   * optional subtitle.
   */
  datatype HeadText = HeadText(now: string, author: string, key: string, title: string, subtitle: string)

  function HeadTextOf(thread: Thread, now: string): HeadText
  {
    HeadText(now, EncodeHtml(thread.author.name), thread.key, thread.title, Subtitle(thread.description))
  }

  /** The escaped thread description in a `<subtitle>`, when it has text. */
  function Subtitle(description: Option<string>): string
  {
    if HasText(description)
    then "<subtitle>" + EncodeHtml(description.value) + "</subtitle>"
    else ""
  }

  /** The head template through the title line. */
  function HeadBodyPieces(h: HeadText): seq<string>
  {
    [ XmlDeclaration,
      "\n        " + "<feed xmlns=\"" + "http://www.w3.org" + "/2005/Atom\">",
      Indent, "<generator uri=\"" + "https://github.com" + "/brushedtype" + "/musicthread-rss\""
              + " version=\"0.9.0\">" + "MusicThread RSS" + "</generator>",
      Indent, "<updated>" + h.now + "</updated>",
      Indent, "<author>" + "\n              " + "<name>" + h.author + "</name>" + Indent + "</author>",
      Indent, "<link href=\"" + FeedPage + h.key + "\"" + " rel=\"self\"" + " type=\"application" + "/atom+xml\"/>",
      Indent, "<link href=\"" + ThreadPage + h.key + "\"" + " rel=\"alternate\"" + " type=\"text/html\"/>",
      Indent, "<id>" + FeedPage + h.key + "</id>",
      Indent, HtmlTitle + h.title + "</title>" ]
  }

  function HeadPieces(h: HeadText): seq<string>
  {
    HeadBodyPieces(h) + [h.subtitle]
  }

  /** The feed's opening lines through the title and the optional subtitle. */
  function FeedHead(thread: Thread, now: string): string
  {
    Concat(HeadPieces(HeadTextOf(thread, now)))
  }

  /**
   * `thread.tags.forEach(tag => feedCategories += ...)` in string context:
   * `forEach` returns `undefined`, which concatenates as the text
   * "undefined"; but its callback reads the undeclared `feedCategories`, so
   * on the first tag it throws a ReferenceError.
   */
  function TagCategories(tags: seq<string>): Completion<string>
  {
    if tags == [] then Normal("undefined") else Throw(ReferenceError("feedCategories"))
  }

  /** The entries of the links, one per link, in link order. */
  function Entries(links: seq<Link>): string
  {
    if links == [] then "" else Entries(links[..|links| - 1]) + Entry(links[|links| - 1])
  }

  lemma EntriesSnoc(links: seq<Link>, i: nat)
    requires i < |links|
    ensures Entries(links[..i + 1]) == Entries(links[..i]) + Entry(links[i])
  {
    assert links[..i + 1][..i] == links[..i];
  }

  lemma EntriesAppend(links: seq<Link>, link: Link)
    ensures Entries(links + [link]) == Entries(links) + Entry(link)
  {
    assert (links + [link])[..|links|] == links;
  }

  /** The entries of the links as a list, one per link, in link order. */
  function EntryList(links: seq<Link>): (entries: seq<string>)
    ensures |entries| == |links|
  {
    seq(|links|, i requires 0 <= i < |links| => Entry(links[i]))
  }

  /**
   * `Entries` is the concatenation of one entry per link in link order:
   * nothing is added between entries, dropped or reordered.
   */
  lemma {:induction false} EntriesConcat(links: seq<Link>)
    ensures Entries(links) == Concat(EntryList(links))
  {
    if links != [] {
      var n := |links| - 1;
      EntriesConcat(links[..n]);
      EntryListSnoc(links);
      ConcatSnoc(EntryList(links[..n]), Entry(links[n]));
    }
  }

  lemma EntryListSnoc(links: seq<Link>)
    requires links != []
    ensures EntryList(links) == EntryList(links[..|links| - 1]) + [Entry(links[|links| - 1])]
  {
    var n := |links| - 1;
    var whole, prev := EntryList(links), EntryList(links[..n]);
    forall i | 0 <= i < n
      ensures whole[i] == prev[i]
    {
      assert links[..n][i] == links[i];
    }
  }

  /** What `generateRssFeed(root)` evaluates to, `now` standing for `new Date().toISOString()`. */
  function RssFeed(root: ThreadResponse, now: string): Completion<string>
  {
    match TagCategories(root.thread.tags)
    case Throw(e) => Throw(e)
    case Normal(categories) => Normal(FeedHead(root.thread, now) + categories + Entries(root.links) + "</feed>")
  }

  /**
   * `generateRssFeed`: the head (with the categories text) is built
   * first, then one entry is appended per link, then the closing tag.
   */
  method GenerateRssFeed(root: ThreadResponse, now: string) returns (feed: Completion<string>)
    ensures feed == RssFeed(root, now)
  {
    var categories := TagCategories(root.thread.tags);
    if categories.Throw? {
      return Throw(categories.error);
    }
    var rssFeed := FeedHead(root.thread, now) + categories.value;
    rssFeed := AppendEntries(rssFeed, root.links);
    rssFeed := rssFeed + "</feed>";
    return Normal(rssFeed);
  }

  /** `root.links.forEach(link => { rssFeed += ... })`: the entries appended in link order. */
  method AppendEntries(start: string, links: seq<Link>) returns (rssFeed: string)
    ensures rssFeed == start + Entries(links)
  {
    rssFeed := start;
    assert links[..0] == [];
    var i := 0;
    while i < |links|
      invariant 0 <= i <= |links|
      invariant rssFeed == start + Entries(links[..i])
    {
      var entry := Entry(links[i]);
      EntriesSnoc(links, i);
      AppendAssociative(start, Entries(links[..i]), entry);
      rssFeed := rssFeed + entry;
      i := i + 1;
    }
    assert links[..i] == links;
  }

  // ---------------------------------------------------------------------
  // Properties of the feed.

  lemma EntryLayout(t: EntryText)
    ensures Concat(EntryPieces(t)) ==
      Concat(EntryHeadPieces(t)) + t.summary + Concat(EntryTailPieces(t))
    ensures "<media:thumbnail" <= Concat(EntryTailPieces(t))
  {
    var hs, ts := EntryHeadPieces(t), EntryTailPieces(t);
    ConcatAppend(hs + [t.summary], ts);
    ConcatAppend(hs, [t.summary]);
    ConcatOne(t.summary);
    assert Concat(ts) == ts[0] + Concat(ts[1..]);
  }

  lemma EntryTextDelimited(t: EntryText)
    ensures "<entry>" <= Concat(EntryPieces(t))
    ensures var e := Concat(EntryPieces(t)); |e| >= 8 && e[|e| - 8..] == "</entry>"
  {
    var ps := EntryPieces(t);
    assert Concat(ps) == ps[0] + Concat(ps[1..]);
    ConcatLast(ps);
  }

  /** Each entry is delimited by `<entry>` and `</entry>`. */
  lemma EntryDelimited(link: Link)
    ensures "<entry>" <= Entry(link)
    ensures var e := Entry(link); |e| >= 8 && e[|e| - 8..] == "</entry>"
  {
    EntryTextDelimited(EntryTextOf(link));
  }

  lemma EntryTextFields(t: EntryText)
    ensures var e := Concat(EntryPieces(t));
      Contains(e, "<published>" + t.submittedAt + "</published>") &&
      Contains(e, "<updated>" + t.submittedAt + "</updated>") &&
      Contains(e, "<category" + " term=\"type\"" + " label=\"" + t.category + "\"/>") &&
      Contains(e, HtmlTitle + t.title + "</title>") &&
      Contains(e, HtmlContent + t.content + "</content>")
  {
    var ps := EntryPieces(t);
    var e := Concat(ps);
    ConcatContainsPiece(ps, 2);
    assert Contains(e, ps[2]);
    ConcatContainsPiece(ps, 6);
    assert Contains(e, ps[6]);
    ConcatContainsPiece(ps, 8);
    assert Contains(e, ps[8]);
    ConcatContainsPiece(ps, 14);
    assert Contains(e, ps[14]);
    ConcatContainsPiece(ps, 18);
    assert Contains(e, ps[18]);
  }

  /**
   * Each entry's `<published>` and `<updated>` both hold the link's
   * submission time verbatim, its `type` category is labelled with the
   * capitalized `type`, and its title and content are escaped.
   */
  lemma EntryFields(link: Link)
    ensures Contains(Entry(link), "<published>" + link.submittedAt + "</published>")
    ensures Contains(Entry(link), "<updated>" + link.submittedAt + "</updated>")
    ensures Contains(Entry(link), "<category" + " term=\"type\"" + " label=\"" + Capitalize(link.kind) + "\"/>")
    ensures Contains(Entry(link), HtmlTitle + EncodeHtml(link.title) + "</title>")
    ensures Contains(Entry(link), HtmlContent + EncodeHtml(ItemContent(link)) + "</content>")
  {
    EntryTextFields(EntryTextOf(link));
  }

  /** The summary, when there is one, and then the thumbnail. */
  lemma SummaryThenThumbnail(description: Option<string>, tail: string)
    requires "<media:thumbnail" <= tail
    ensures var rest := EntrySummary(description) + tail;
      (HtmlSummary <= rest <==> HasText(description)) &&
      (HasText(description) ==>
        HtmlSummary + EncodeHtml(description.value) + "</summary>" + "<media:thumbnail" <= rest) &&
      (!HasText(description) ==> "<media:thumbnail" <= rest)
  {
    var rest := EntrySummary(description) + tail;
    var open := HtmlSummary;
    if !HasText(description) {
      assert rest == tail;
      assert rest[1] == 'm' != open[1];
    } else {
      var whole := open + EncodeHtml(description.value) + "</summary>" + "<media:thumbnail";
      assert EntrySummary(description) + "<media:thumbnail" == whole;
      assert whole <= rest;
      assert open <= whole;
      PrefixTransitive(open, whole, rest);
    }
  }

  /**
   * The summary element follows the entry's category exactly when the link
   * description has text; otherwise the thumbnail follows the category
   * directly. The entry up to the category does not depend on the
   * description.
   */
  lemma EntrySummaryIffDescription(link: Link, other: Option<string>)
    ensures EntryHead(link) == EntryHead(link.(description := other))
    ensures EntryHead(link) <= Entry(link)
    ensures var rest := Entry(link)[|EntryHead(link)|..];
      (HtmlSummary <= rest <==> HasText(link.description)) &&
      (HasText(link.description) ==>
        HtmlSummary + EncodeHtml(link.description.value) + "</summary>" + "<media:thumbnail" <= rest) &&
      (!HasText(link.description) ==> "<media:thumbnail" <= rest)
  {
    var t, u := EntryTextOf(link), EntryTextOf(link.(description := other));
    assert EntryHeadPieces(t) == EntryHeadPieces(u);
    assert EntryHead(link.(description := other)) == Concat(EntryHeadPieces(u));
    EntryLayout(t);
    var head, tail := Concat(EntryHeadPieces(t)), Concat(EntryTailPieces(t));
    assert EntryHead(link) == head;
    assert Entry(link) == head + t.summary + tail;
    AfterPrefix(head, t.summary, tail);
    assert t.summary == EntrySummary(link.description);
    SummaryThenThumbnail(link.description, tail);
  }

  lemma HeadLayout(h: HeadText)
    ensures Concat(HeadPieces(h)) == Concat(HeadPieces(h.(subtitle := ""))) + h.subtitle
  {
    var g := h.(subtitle := "");
    assert HeadBodyPieces(g) == HeadBodyPieces(h);
    ConcatAppend(HeadBodyPieces(h), [h.subtitle]);
    ConcatAppend(HeadBodyPieces(h), [""]);
    ConcatOne(h.subtitle);
    ConcatOne("");
  }

  /**
   * The subtitle is the only part of the head that depends on the thread
   * description: present exactly when the description has text, and the
   * head is otherwise that of a thread without description.
   */
  lemma SubtitleIffDescription(thread: Thread, now: string)
    ensures FeedHead(thread, now) == FeedHead(thread.(description := None), now)
      + (if HasText(thread.description)
         then "<subtitle>" + EncodeHtml(thread.description.value) + "</subtitle>"
         else "")
  {
    var h := HeadTextOf(thread, now);
    var g := HeadTextOf(thread.(description := None), now);
    assert g == h.(subtitle := "");
    HeadLayout(h);
    assert FeedHead(thread, now) == Concat(HeadPieces(h));
    assert FeedHead(thread.(description := None), now) == Concat(HeadPieces(g));
  }

  lemma HeadTextFields(h: HeadText)
    ensures XmlDeclaration <= Concat(HeadPieces(h))
    ensures var s := Concat(HeadPieces(h));
      Contains(s, "<updated>" + h.now + "</updated>") &&
      Contains(s, "<author>" + "\n              " + "<name>" + h.author + "</name>" + Indent + "</author>") &&
      Contains(s, "<id>" + FeedPage + h.key + "</id>") &&
      Contains(s, HtmlTitle + h.title + "</title>")
  {
    var ps := HeadPieces(h);
    var s := Concat(ps);
    assert s == ps[0] + Concat(ps[1..]);
    ConcatContainsPiece(ps, 5);
    assert Contains(s, ps[5]);
    ConcatContainsPiece(ps, 7);
    assert Contains(s, ps[7]);
    ConcatContainsPiece(ps, 13);
    assert Contains(s, ps[13]);
    ConcatContainsPiece(ps, 15);
    assert Contains(s, ps[15]);
  }

  /**
   * The head names the author (escaped), the time of generation, the
   * feed's own address as its id, and carries the thread title unescaped.
   */
  lemma FeedHeadFields(thread: Thread, now: string)
    ensures XmlDeclaration <= FeedHead(thread, now)
    ensures Contains(FeedHead(thread, now), "<updated>" + now + "</updated>")
    ensures Contains(FeedHead(thread, now),
      "<author>" + "\n              " + "<name>" + EncodeHtml(thread.author.name) + "</name>" + Indent + "</author>")
    ensures Contains(FeedHead(thread, now), "<id>" + FeedPage + thread.key + "</id>")
    ensures Contains(FeedHead(thread, now), HtmlTitle + thread.title + "</title>")
  {
    HeadTextFields(HeadTextOf(thread, now));
  }

  lemma FeedShape(head: string, categories: string, entries: string)
    ensures var feed := head + categories + entries + "</feed>";
      head + categories <= feed && |feed| >= 7 && feed[|feed| - 7..] == "</feed>"
  {
    AfterPrefix(head + categories, entries, "</feed>");
    AfterPrefix(head + categories + entries, "</feed>", "");
  }

  /** With tags the feed is never produced: the ReferenceError is thrown instead. */
  lemma RssFeedThrowsIffTagged(root: ThreadResponse, now: string)
    ensures RssFeed(root, now).Throw? <==> root.thread.tags != []
    ensures RssFeed(root, now).Throw? ==> RssFeed(root, now).error == ReferenceError("feedCategories")
  {
  }

  /** Without tags the literal text "undefined" follows the head. */
  lemma RssFeedUndefinedAfterHead(root: ThreadResponse, now: string)
    ensures RssFeed(root, now).Normal? ==>
      FeedHead(root.thread, now) + "undefined" <= RssFeed(root, now).value
  {
    if root.thread.tags == [] {
      UntaggedFeed(root, now);
      FeedShape(FeedHead(root.thread, now), "undefined", Entries(root.links));
    }
  }

  /** A feed that is produced ends with `</feed>`. */
  lemma RssFeedClosed(root: ThreadResponse, now: string)
    ensures RssFeed(root, now).Normal? ==>
      var feed := RssFeed(root, now).value;
      |feed| >= 7 && feed[|feed| - 7..] == "</feed>"
  {
    if root.thread.tags == [] {
      UntaggedFeed(root, now);
      FeedShape(FeedHead(root.thread, now), "undefined", Entries(root.links));
    }
  }

  lemma UntaggedFeed(root: ThreadResponse, now: string)
    requires root.thread.tags == []
    ensures RssFeed(root, now) == Normal(FeedHead(root.thread, now) + "undefined" + Entries(root.links) + "</feed>")
  {
  }

  /** A thread with no tags and no links gives a feed without entries: head, "undefined", `</feed>`. */
  lemma EmptyThreadFeed(thread: Thread, now: string)
    requires thread.tags == []
    ensures RssFeed(ThreadResponse(thread, []), now) == Normal(FeedHead(thread, now) + "undefined</feed>")
  {
    var head := FeedHead(thread, now);
    assert Entries([]) == "";
    EmptyFeedText(head);
  }

  lemma EmptyFeedText(head: string)
    ensures head + "undefined" + "" + "</feed>" == head + "undefined</feed>"
  {
    assert "undefined" + "</feed>" == "undefined</feed>";
    AppendAssociative(head, "undefined", "</feed>");
  }

  /**
   * One more link at the end of the thread adds its entry, and nothing
   * else, just before `</feed>`.
   */
  lemma AppendLinkAppendsEntry(root: ThreadResponse, link: Link, now: string)
    ensures var longer := RssFeed(root.(links := root.links + [link]), now);
      var feed := RssFeed(root, now);
      longer.Throw? == feed.Throw? &&
      (feed.Normal? ==>
        |feed.value| >= 7 && longer.value == feed.value[..|feed.value| - 7] + Entry(link) + "</feed>")
  {
    if root.thread.tags == [] {
      var longer := root.(links := root.links + [link]);
      UntaggedFeed(root, now);
      UntaggedFeed(longer, now);
      EntriesAppend(root.links, link);
      AppendEntryShape(FeedHead(root.thread, now) + "undefined", Entries(root.links), Entry(link));
    }
  }

  /** Appending an entry to a feed's entries puts it just before `</feed>`. */
  lemma AppendEntryShape(start: string, entries: string, entry: string)
    ensures var feed := start + entries + "</feed>";
      |feed| >= 7 && start + (entries + entry) + "</feed>" == feed[..|feed| - 7] + entry + "</feed>"
  {
    var feed := start + entries + "</feed>";
    assert feed[..|feed| - 7] == start + entries;
  }

  /**
   * A thread tagged `jazz` with one link is not rendered: the
   * ReferenceError escapes instead of a category `jazz`.
   */
  lemma TaggedThreadThrows(link: Link, now: string)
    ensures var thread := Thread("abc", "My Thread", Some(""), ["jazz"], Author("Alice"));
      RssFeed(ThreadResponse(thread, [link]), now) == Throw(ReferenceError("feedCategories"))
  {
  }

  // ---------------------------------------------------------------------
  // The categories `generateRssFeed` evidently meant to write: one
  // `<category term="..."/>` per tag, with the tag escaped, in tag order.

  function CategoryElement(tag: string): string
  {
    "<category term=\"" + EncodeHtml(tag) + "\"/>"
  }

  /** The category elements of the tags, appended one per tag as the `forEach` callback does. */
  function Categories(tags: seq<string>): string
  {
    if tags == [] then "" else Categories(tags[..|tags| - 1]) + CategoryElement(tags[|tags| - 1])
  }

  /** `generateRssFeed` with the categories in place of the text of `forEach`'s result. */
  function FixedRssFeed(root: ThreadResponse, now: string): string
  {
    FeedHead(root.thread, now) + Categories(root.thread.tags) + Entries(root.links) + "</feed>"
  }

  /** Each tag has its category element among the categories. */
  lemma {:induction false} CategoriesListTags(tags: seq<string>, i: nat)
    requires i < |tags|
    ensures Contains(Categories(tags), CategoryElement(tags[i]))
  {
    var n := |tags| - 1;
    var before := Categories(tags[..n]);
    assert Categories(tags) == before + CategoryElement(tags[n]);
    if i == n {
      ContainsLast(before, CategoryElement(tags[n]));
    } else {
      CategoriesListTags(tags[..n], i);
      assert tags[..n][i] == tags[i];
      ContainsBefore(before, CategoryElement(tags[n]), CategoryElement(tags[i]));
    }
  }

  /** The categories are empty exactly when there are no tags. */
  lemma CategoriesEmptyIffUntagged(tags: seq<string>)
    ensures Categories(tags) == "" <==> tags == []
  {
    if tags != [] {
      assert |CategoryElement(tags[|tags| - 1])| > 0;
    }
  }

  /** The fixed feed carries one category element for each tag of the thread. */
  lemma FixedFeedListsTags(root: ThreadResponse, now: string, i: nat)
    requires i < |root.thread.tags|
    ensures Contains(FixedRssFeed(root, now), CategoryElement(root.thread.tags[i]))
  {
    CategoriesListTags(root.thread.tags, i);
    FeedAround(FeedHead(root.thread, now), Categories(root.thread.tags), Entries(root.links),
      CategoryElement(root.thread.tags[i]));
  }

  lemma FeedAround(head: string, categories: string, entries: string, t: string)
    requires Contains(categories, t)
    ensures Contains(head + categories + entries + "</feed>", t)
  {
    ContainsWithin(head, categories, entries + "</feed>", t);
    AppendAssociative(head + categories, entries, "</feed>");
  }

  /**
   * Without tags the fixed feed is the feed as written less the text
   * "undefined" after the head, and nothing else differs.
   */
  lemma FixedFeedUntagged(root: ThreadResponse, now: string)
    requires root.thread.tags == []
    ensures RssFeed(root, now).Normal?
    ensures var head, feed := FeedHead(root.thread, now), RssFeed(root, now).value;
      |feed| >= |head| + 9 && feed[..|head| + 9] == head + "undefined" &&
      FixedRssFeed(root, now) == head + feed[|head| + 9..]
  {
    UntaggedFeed(root, now);
    assert Categories(root.thread.tags) == "";
    UndefinedDropped(FeedHead(root.thread, now), Entries(root.links));
  }

  lemma UndefinedDropped(head: string, entries: string)
    ensures var feed := head + "undefined" + entries + "</feed>";
      |feed| >= |head| + 9 && feed[..|head| + 9] == head + "undefined" &&
      head + "" + entries + "</feed>" == head + feed[|head| + 9..]
  {
    var feed := head + "undefined" + entries + "</feed>";
    assert feed[|head| + 9..] == entries + "</feed>";
  }

  /**
   * With the correction, a thread tagged `jazz`, or with any tag that has
   * nothing to escape, has that tag's category element verbatim.
   */
  lemma TaggedThreadFixed(root: ThreadResponse, now: string, tag: string)
    requires tag in root.thread.tags
    requires '&' !in tag && '<' !in tag && '>' !in tag && '\'' !in tag && '"' !in tag && '/' !in tag
    ensures Contains(FixedRssFeed(root, now), "<category term=\"" + tag + "\"/>")
  {
    var i :| 0 <= i < |root.thread.tags| && root.thread.tags[i] == tag;
    FixedFeedListsTags(root, now, i);
    EncodeHtmlPlain(tag);
  }
}
