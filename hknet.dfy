/**
 * hknet.py: a news listing turned into an Atom feed. Each new article is
 * dated by the listing's `HH:MM` time tag (today, Hong Kong time) and
 * described by its cleaned content container, behind a banner taken from
 * the page's JSON-LD dates.
 */
module HkNet {
  import opened Text
  import opened Clock
  import opened Feed
  import opened Ledger
  import opened Markup

  /** The listing's link element: its `get_text(strip=True)` and its `href`. */
  datatype Link = Link(text: string, href: Option<string>)

  /**
   * A listing item: its link element, the stripped text of its
   * `.listing-date .font-en` time tag when there is one, and the author.
   */
  datatype Thread = Thread(link: Option<Link>, timeTag: Option<string>, author: Option<string>)

  /**
   * The JSON-LD script: `Malformed` stands for every script the catch-all
   * handler turns into None (text that `json.loads` refuses, a script
   * whose `.string` is None, a top level that is not an object), otherwise
   * the object's two dates.
   */
  datatype JsonLd = Malformed | Object(datePublished: Option<string>, dateModified: Option<string>)

  /**
   * A detail page: unreachable (the request raised), or its
   * `article-detail-content-container` div and the first JSON-LD script
   * left in the document once the container is cleaned.
   */
  datatype Page =
    | Unreachable
    | Fetched(container: Option<Node>, jsonLd: Option<JsonLd>)

  /** What `get_thread_description` returns when it succeeds. */
  datatype Detail = Detail(content: string, published: Option<string>, modified: Option<string>)

  /** The f-string banner; a missing modification date prints as "None". */
  function DatesBanner(published: string, modified: Option<string>): string
  {
    "<p>Published on: " + published + " Updated on: " + (if modified.Some? then modified.value else "None") + "</p>"
  }

  /**
   * No container gives None; otherwise the container is cleaned and
   * rendered (`render` is `str(container)`), a malformed JSON-LD raises
   * and gives None, and a non-empty `datePublished` puts the banner first.
   */
  function GetThreadDescription(render: Node -> string, page: Page): Option<Detail>
  {
    match page
    case Unreachable => None
    case Fetched(container, json) =>
      if container.None? then None
      else
        var content := render(Clean(container.value));
        if json == Some(Malformed) then None
        else
          var published := if json.Some? then json.value.datePublished else None;
          var modified := if json.Some? then json.value.dateModified else None;
          Some(Detail(if Truthy(published) then DatesBanner(published.value, modified) + content else content,
                      published, modified))
  }

  /**
   * The description exists exactly when the page was fetched, has the
   * container and no malformed JSON-LD; it is the cleaned container,
   * behind the banner exactly when `datePublished` is non-empty.
   */
  lemma DescriptionLayout(render: Node -> string, page: Page)
    ensures var r := GetThreadDescription(render, page);
      && (r.Some? <==> page.Fetched? && page.container.Some? && page.jsonLd != Some(Malformed))
      && (r.Some? ==>
            var body := render(Clean(page.container.value));
            && r.value.published == (if page.jsonLd.Some? then page.jsonLd.value.datePublished else None)
            && r.value.modified == (if page.jsonLd.Some? then page.jsonLd.value.dateModified else None)
            && (Truthy(r.value.published) ==> r.value.content == DatesBanner(r.value.published.value, r.value.modified) + body)
            && (!Truthy(r.value.published) ==> r.value.content == body))
  {
  }

  // ---------------------------------------------------------------------
  // The publication time of a listing item

  /**
   * The default "now", replaced by today's date at the tag's time when
   * the tag parses as `%H:%M`.
   */
  function ListingTime(nowUtc: int, timeTag: Option<string>): (d: DateTime)
    ensures d.offset == Some(HongKong)
  {
    if timeTag.Some? && HourMinute(timeTag.value).Some? then
      var (h, m) := HourMinute(timeTag.value).value;
      TodayAt(nowUtc, h, m)
    else NowInHongKong(nowUtc)
  }

  /**
   * A tag that parses gives that time on the current Hong Kong day; any
   * other tag, or none, leaves the time at "now".
   */
  lemma ListingTimeRule(nowUtc: int, timeTag: Option<string>)
    ensures var d := ListingTime(nowUtc, timeTag);
      if timeTag.Some? && HourMinute(timeTag.value).Some? then
        var (h, m) := HourMinute(timeTag.value).value;
        d.wall / Day == (nowUtc + HongKong) / Day && d.wall % Day == h * Hour + m * Minute
      else d.Instant() == nowUtc
  {
    if timeTag.Some? && HourMinute(timeTag.value).Some? {
      var (h, m) := HourMinute(timeTag.value).value;
      TodayAtSameDay(nowUtc, h, m);
    }
  }

  // ---------------------------------------------------------------------
  // One listing item

  /** The loop's inputs besides the item: the clock, the feed title and the pages. */
  datatype Context = Context(
    u: Unicode,
    resolve: string -> string,
    fetch: string -> Page,
    render: Node -> string,
    nowUtc: int,
    feedTitle: string)

  /**
   * The rest of the loop body for an item with a non-empty title whose key
   * is new: a missing `href` raises; an item without a time tag (or any
   * item, when the feed title is empty) is skipped; otherwise the entry is
   * added with the detail content behind two newlines, or empty content,
   * and counted when its URL is non-empty.
   */
  function Accept(ctx: Context, t: Thread): Outcome
    requires t.link.Some?
  {
    if t.link.value.href.None? then Abort(MissingHref)
    else
      var url := ctx.resolve(t.link.value.href.value);
      var pub := ListingTime(ctx.nowUtc, t.timeTag);
      if ctx.feedTitle == "" || t.timeTag.None? then Drop
      else
        var detail := GetThreadDescription(ctx.render, ctx.fetch(url));
        var description := if detail.Some? then "\n\n" + detail.value.content else "";
        Emit(Entry(ThreadUrl(url), t.link.value.text, url, pub, pub, description, t.author), url != "")
  }

  function Classify(ctx: Context, t: Thread): Candidate
  {
    if t.link.None? || t.link.value.text == "" then Unkeyed
    else Keyed(TitleKey(ctx.u, t.link.value.text), Accept(ctx, t))
  }

  function Candidates(ctx: Context, threads: seq<Thread>): (cs: seq<Candidate>)
    ensures |cs| == |threads|
  {
    seq(|threads|, i requires 0 <= i < |threads| => Classify(ctx, threads[i]))
  }

  /** The defaults and the `HH:MM` override of the loop body. */
  method ListingDates(nowUtc: int, timeTag: Option<string>) returns (pubDate: DateTime, updatedDate: DateTime)
    ensures pubDate == updatedDate == ListingTime(nowUtc, timeTag)
  {
    pubDate := NowInHongKong(nowUtc);
    updatedDate := NowInHongKong(nowUtc);
    if timeTag.Some? {
      var parsed := HourMinute(timeTag.value);
      if parsed.Some? {
        pubDate := TodayAt(nowUtc, parsed.value.0, parsed.value.1);
        updatedDate := pubDate;
      }
    }
  }

  /** The part of the loop body after the title checks, for an item with a link. */
  method AcceptThread(ctx: Context, thread: Thread) returns (o: Outcome)
    requires thread.link.Some?
    ensures o == Accept(ctx, thread)
  {
    if thread.link.value.href.None? {
      return Abort(MissingHref);
    }
    var threadUrl := ctx.resolve(thread.link.value.href.value);
    var pubDate, updatedDate := ListingDates(ctx.nowUtc, thread.timeTag);
    if ctx.feedTitle == "" || thread.timeTag.None? {
      return Drop;
    }
    var description := "";
    var threadDesc := GetThreadDescription(ctx.render, ctx.fetch(threadUrl));
    if threadDesc.Some? {
      description := description + "\n\n" + threadDesc.value.content;
    }
    var entry := Entry(ThreadUrl(threadUrl), thread.link.value.text, threadUrl, pubDate, updatedDate, description, thread.author);
    return Emit(entry, threadUrl != "");
  }

  /** The body of `fetch_feed`'s loop for one listing item; each `continue` returns `r`. */
  method VisitThread(ctx: Context, thread: Thread, r: Run) returns (res: Result)
    ensures res == Step(r, Classify(ctx, thread))
  {
    if thread.link.None? {
      return Finished(r);
    }
    var entryTitle := thread.link.value.text;
    if entryTitle == "" {
      return Finished(r);
    }
    var normalizedTitle := TitleKey(ctx.u, entryTitle);
    if normalizedTitle in r.ledger {
      return Finished(r);
    }
    var outcome := AcceptThread(ctx, thread);
    res := AddOutcome(r, normalizedTitle, outcome);
  }

  /**
   * `fetch_feed`: loads the ledger, walks the listing, and writes the feed
   * when at least one entry was counted; `listing` is None when the
   * listing page could not be retrieved.
   */
  method FetchFeed(ctx: Context, deployed: FeedFile, local: FeedFile, listing: Option<seq<Thread>>)
    returns (res: Result, written: bool)
    ensures listing.None? ==> res == ListingFailed
    ensures listing.Some? ==>
      res == Walk(Candidates(ctx, listing.value), Start(FileKeys(ctx.u, deployed) + FileKeys(ctx.u, local)))
    ensures written <==> Written(res)
  {
    var existingTitles := GetExistingEntries(ctx.u, deployed, local);
    if listing.None? {
      return ListingFailed, false;
    }
    res := WalkListing(ctx, listing.value, existingTitles);
    written := res.Finished? && res.run.newEntries > 0;
  }

  /** The listing loop of `fetch_feed`, from the loaded ledger, up to the first exception. */
  method WalkListing(ctx: Context, threads: seq<Thread>, existingTitles: set<string>) returns (res: Result)
    ensures res == Walk(Candidates(ctx, threads), Start(existingTitles))
  {
    ghost var cs := Candidates(ctx, threads);
    var state := Start(existingTitles);
    for i := 0 to |threads|
      invariant Walk(cs[..i], Start(existingTitles)) == Finished(state)
    {
      var next := VisitThread(ctx, threads[i], state);
      assert next == Step(state, cs[i]) by {
        assert cs[i] == Classify(ctx, threads[i]);
      }
      WalkExtends(cs, i, Start(existingTitles), state, next);
      if next.Crashed? {
        return next;
      }
      state := next.run;
    }
    assert cs[..|threads|] == cs;
    return Finished(state);
  }

  // ---------------------------------------------------------------------
  // Properties of the walk over this listing

  lemma CandidatesKeyedByTitle(ctx: Context, threads: seq<Thread>)
    ensures KeyedByTitle(ctx.u, Candidates(ctx, threads))
  {
    forall i | 0 <= i < |threads| ensures EmitsOwnTitle(ctx.u, Classify(ctx, threads[i])) {
      ClassifyKeyedByTitle(ctx, threads[i]);
    }
  }

  lemma ClassifyKeyedByTitle(ctx: Context, t: Thread)
    ensures EmitsOwnTitle(ctx.u, Classify(ctx, t))
  {
  }

  /**
   * An item whose key is new and that has an `href` is skipped exactly
   * when it has no time tag (the feed title being non-empty): the test of
   * `title` at that point reads the feed's title, not the entry's.
   */
  lemma ItemWithoutTimeSkipped(ctx: Context, t: Thread, r: Run)
    requires t.link.Some? && t.link.value.text != "" && t.link.value.href.Some?
    requires TitleKey(ctx.u, t.link.value.text) !in r.ledger
    ensures Step(r, Classify(ctx, t)) == Finished(r) <==> ctx.feedTitle == "" || t.timeTag.None?
  {
    StepKeeps(r, Classify(ctx, t));
    assert Accept(ctx, t).Drop? <==> ctx.feedTitle == "" || t.timeTag.None?;
  }

  /** With an empty feed title nothing is ever added, so the feed is never written. */
  lemma EmptyFeedTitleWritesNothing(ctx: Context, threads: seq<Thread>, l0: set<string>)
    requires ctx.feedTitle == ""
    requires Walk(Candidates(ctx, threads), Start(l0)).Finished?
    ensures Walk(Candidates(ctx, threads), Start(l0)).run.added == []
    ensures !Written(Walk(Candidates(ctx, threads), Start(l0)))
  {
    var cs := Candidates(ctx, threads);
    forall i | 0 <= i < |cs|
      ensures !(cs[i].Keyed? && cs[i].outcome.Emit?)
    {
      assert cs[i] == Classify(ctx, threads[i]);
    }
    WalkWithoutEmit(cs, Start(l0));
  }

  /**
   * The entry the loop builds for item `t`: id and link are the item's
   * resolved URL, the title is its link text and the author its own,
   * published equals updated and is the listing time of its time tag, and
   * the content is the detail behind two newlines, or empty when the
   * detail could not be extracted.
   */
  predicate Built(ctx: Context, t: Thread, a: Added)
  {
    var e := a.entry;
    var detail := GetThreadDescription(ctx.render, ctx.fetch(e.link));
    && t.link.Some? && t.link.value.href.Some? && t.timeTag.Some?
    && e.link == ctx.resolve(t.link.value.href.value)
    && e.id == ThreadUrl(e.link)
    && e.title == t.link.value.text
    && e.author == t.author
    && a.key == TitleKey(ctx.u, e.title)
    && e.published == e.updated == ListingTime(ctx.nowUtc, t.timeTag)
    && e.content == (if detail.Some? then "\n\n" + detail.value.content else "")
    && (a.counted <==> e.link != "")
  }

  lemma EmittedBuilt(ctx: Context, threads: seq<Thread>, i: int, a: Added)
    requires 0 <= i < |threads|
    requires Classify(ctx, threads[i]) == Keyed(a.key, Emit(a.entry, a.counted))
    ensures Built(ctx, threads[i], a)
    ensures a.entry.title == threads[i].link.value.text
    ensures a.entry.link == ctx.resolve(threads[i].link.value.href.value)
    ensures a.entry.published == ListingTime(ctx.nowUtc, threads[i].timeTag)
    ensures a.entry.author == threads[i].author
  {
    var t := threads[i];
    var link := t.link.value;
    var url := ctx.resolve(link.href.value);
    var pub := ListingTime(ctx.nowUtc, t.timeTag);
    var detail := GetThreadDescription(ctx.render, ctx.fetch(url));
    var description := if detail.Some? then "\n\n" + detail.value.content else "";
    assert a.entry == Entry(ThreadUrl(url), link.text, url, pub, pub, description, t.author);
    assert a.key == TitleKey(ctx.u, link.text) && (a.counted <==> url != "");
  }

  lemma AddedEntries(ctx: Context, threads: seq<Thread>, l0: set<string>)
    requires Walk(Candidates(ctx, threads), Start(l0)).Finished?
    ensures var added := Walk(Candidates(ctx, threads), Start(l0)).run.added;
      forall n :: 0 <= n < |added| ==> exists i :: 0 <= i < |threads| && Built(ctx, threads[i], added[n])
  {
    var cs := Candidates(ctx, threads);
    WalkAddsFromListing(cs, Start(l0));
    var added := Walk(cs, Start(l0)).run.added;
    forall n | 0 <= n < |added|
      ensures exists i :: 0 <= i < |threads| && Built(ctx, threads[i], added[n])
    {
      var i :| 0 <= i < |cs| && cs[i] == Keyed(added[n].key, Emit(added[n].entry, added[n].counted));
      assert cs[i] == Classify(ctx, threads[i]);
      EmittedBuilt(ctx, threads, i, added[n]);
    }
  }
}
