/**
 * hkdiscuss.py: a forum listing turned into an Atom feed. Each new thread
 * (its title key not in the ledger) is described from its detail page:
 * the post's markup behind a "Published on" banner, and the page's
 * `publish_date` meta as the entry's date.
 */
module HkDiscuss {
  import opened Text
  import opened Clock
  import opened Feed
  import opened Ledger

  /** The listing's link element: its `get_text(strip=True)` and its `href`. */
  datatype Link = Link(text: string, href: Option<string>)

  /** A listing item: its link element, and the author's name when present. */
  datatype Thread = Thread(link: Option<Link>, author: Option<string>)

  /**
   * A detail page: unreachable (the request raised or the status was not
   * 200), or the `publish_date` meta (absent, present without `content`,
   * or its content) and the markup of the `t_msgfont` post div.
   */
  datatype Page =
    | Unreachable
    | Fetched(publishMeta: Option<Option<string>>, post: Option<string>)

  /** What `get_thread_description` returns: the description and the publication date. */
  datatype Detail = Detail(description: Option<string>, publishDate: Option<string>)

  function PublishedBanner(date: string): string
  {
    "<p>Published on: " + date + "</p>"
  }

  /** The meta's `content`, or None when there is no meta tag. */
  function MetaDate(meta: Option<Option<string>>): Option<string>
  {
    if meta.Some? then meta.value else None
  }

  /**
   * A meta tag without `content` raises KeyError and a page without the
   * post leaves `description_parts` unbound; both are caught and give
   * (None, None), as does an unreachable page.
   */
  function GetThreadDescription(page: Page): Detail
  {
    match page
    case Unreachable => Detail(None, None)
    case Fetched(meta, post) =>
      if meta == Some(None) || post.None? then Detail(None, None)
      else
        var date := MetaDate(meta);
        var parts := if Truthy(date) then [PublishedBanner(date.value), post.value] else [post.value];
        Detail(Some(Join(Break, parts)), date)
  }

  /**
   * The description is the post, behind the banner and a `<br>` exactly
   * when the page has a non-empty publication date; it is missing exactly
   * when the page is unreachable, has no post, or has a meta tag without
   * content, and then the date is missing too.
   */
  lemma DescriptionLayout(page: Page)
    ensures var r := GetThreadDescription(page);
      && (r.description.None? <==> page.Unreachable? || page.post.None? || page.publishMeta == Some(None))
      && (r.description.None? ==> r.publishDate.None?)
      && (r.description.Some? ==>
            && r.publishDate == MetaDate(page.publishMeta)
            && r.description.value == (if Truthy(r.publishDate) then PublishedBanner(r.publishDate.value) + Break + page.post.value
                                       else page.post.value))
  {
    if page.Fetched? && page.publishMeta != Some(None) && page.post.Some? {
      var date := MetaDate(page.publishMeta);
      if Truthy(date) {
        assert Join(Break, [PublishedBanner(date.value), page.post.value]) == PublishedBanner(date.value) + Break + Join(Break, [page.post.value]);
      }
    }
  }

  // ---------------------------------------------------------------------
  // One listing item

  /**
   * The rest of the loop body for an item with a non-empty title whose key
   * is new: a missing `href` raises; no description or no publication date
   * skips the item; an unparsable date (after the offset rewrite) raises,
   * and so does a date without an offset, which feedgen's `published`
   * refuses; otherwise the entry is added, and counted when its URL is
   * non-empty.
   */
  function Accept(u: Unicode, resolve: string -> string, fetch: string -> Page, link: Link, author: Option<string>): Outcome
    requires link.text != ""
  {
    if link.href.None? then Abort(MissingHref)
    else
      var url := resolve(link.href.value);
      var detail := GetThreadDescription(fetch(url));
      if !Truthy(detail.description) then Drop
      else if !Truthy(detail.publishDate) then Drop
      else match IsoParse(RewriteOffset(detail.publishDate.value))
        case None => Abort(UnparsableDate)
        case Some(pub) =>
          if !pub.Aware() then Abort(NaivePublishDate)
          else Emit(Entry(TitleDigest(link.text), link.text, url, pub, pub, Sanitize(u, detail.description.value), author), url != "")
  }

  function Classify(u: Unicode, resolve: string -> string, fetch: string -> Page, t: Thread): Candidate
  {
    if t.link.None? || t.link.value.text == "" then Unkeyed
    else Keyed(TitleKey(u, t.link.value.text), Accept(u, resolve, fetch, t.link.value, t.author))
  }

  function Candidates(u: Unicode, resolve: string -> string, fetch: string -> Page, threads: seq<Thread>): (cs: seq<Candidate>)
    ensures |cs| == |threads|
  {
    seq(|threads|, i requires 0 <= i < |threads| => Classify(u, resolve, fetch, threads[i]))
  }

  /**
   * The body of `fetch_feed`'s loop for one listing item, from the state
   * `r` (the entries added, `existing_titles`, `new_entries`); each
   * `continue` returns the state unchanged.
   */
  method VisitThread(u: Unicode, resolve: string -> string, fetch: string -> Page, thread: Thread, r: Run)
    returns (res: Result)
    ensures res == Step(r, Classify(u, resolve, fetch, thread))
  {
    if thread.link.None? {
      return Finished(r);
    }
    var entryTitle := thread.link.value.text;
    if entryTitle == "" {
      return Finished(r);
    }
    var normalizedTitle := TitleKey(u, entryTitle);
    if normalizedTitle in r.ledger {
      return Finished(r);
    }
    var outcome := AcceptThread(u, resolve, fetch, thread.link.value, thread.author);
    res := AddOutcome(r, normalizedTitle, outcome);
  }

  /** The part of the loop body after the title checks, for an item with a non-empty title. */
  method AcceptThread(u: Unicode, resolve: string -> string, fetch: string -> Page, link: Link, author: Option<string>)
    returns (o: Outcome)
    requires link.text != ""
    ensures o == Accept(u, resolve, fetch, link, author)
  {
    if link.href.None? {
      return Abort(MissingHref);
    }
    var threadUrl := resolve(link.href.value);
    var detail := GetThreadDescription(fetch(threadUrl));
    var description;
    if Truthy(detail.description) {
      description := Sanitize(u, detail.description.value);
    } else {
      return Drop;
    }
    var pubDate;
    if Truthy(detail.publishDate) {
      var parsed := IsoParse(RewriteOffset(detail.publishDate.value));
      if parsed.None? {
        return Abort(UnparsableDate);
      }
      pubDate := parsed.value;
    } else {
      return Drop;
    }
    if pubDate.offset.None? {
      return Abort(NaivePublishDate);
    }
    var entry := Entry(TitleDigest(link.text), link.text, threadUrl, pubDate, pubDate, description, author);
    return Emit(entry, threadUrl != "");
  }

  /**
   * `fetch_feed`: loads the ledger, walks the listing, and writes the feed
   * when at least one entry was counted. `listing` is None when the
   * listing page could not be retrieved; `resolve` is `urljoin(url, _)`
   * and `fetch` the detail page behind a URL.
   */
  method FetchFeed(u: Unicode, resolve: string -> string, fetch: string -> Page,
                   deployed: FeedFile, local: FeedFile, listing: Option<seq<Thread>>)
    returns (res: Result, written: bool)
    ensures listing.None? ==> res == ListingFailed
    ensures listing.Some? ==>
      res == Walk(Candidates(u, resolve, fetch, listing.value), Start(FileKeys(u, deployed) + FileKeys(u, local)))
    ensures written <==> Written(res)
  {
    var existingTitles := GetExistingEntries(u, deployed, local);
    if listing.None? {
      return ListingFailed, false;
    }
    res := WalkListing(u, resolve, fetch, listing.value, existingTitles);
    written := res.Finished? && res.run.newEntries > 0;
  }

  /** The listing loop of `fetch_feed`, from the loaded ledger, up to the first exception. */
  method WalkListing(u: Unicode, resolve: string -> string, fetch: string -> Page, threads: seq<Thread>,
                     existingTitles: set<string>) returns (res: Result)
    ensures res == Walk(Candidates(u, resolve, fetch, threads), Start(existingTitles))
  {
    ghost var cs := Candidates(u, resolve, fetch, threads);
    var state := Start(existingTitles);
    for i := 0 to |threads|
      invariant Walk(cs[..i], Start(existingTitles)) == Finished(state)
    {
      var next := VisitThread(u, resolve, fetch, threads[i], state);
      ListingStep(u, resolve, fetch, threads, i, Start(existingTitles), state, next);
      if next.Crashed? {
        return next;
      }
      state := next.run;
    }
    assert cs[..|threads|] == cs;
    return Finished(state);
  }

  /** Visiting the next item extends the walk over the listing's candidates by one step. */
  lemma ListingStep(u: Unicode, resolve: string -> string, fetch: string -> Page, threads: seq<Thread>, i: int,
                    r0: Run, state: Run, next: Result)
    requires 0 <= i < |threads|
    requires Walk(Candidates(u, resolve, fetch, threads)[..i], r0) == Finished(state)
    requires next == Step(state, Classify(u, resolve, fetch, threads[i]))
    ensures next.Crashed? ==> Walk(Candidates(u, resolve, fetch, threads), r0) == next
    ensures next.Finished? ==> Walk(Candidates(u, resolve, fetch, threads)[..i + 1], r0) == next
  {
    WalkExtends(Candidates(u, resolve, fetch, threads), i, r0, state, next);
  }

  // ---------------------------------------------------------------------
  // Properties of the walk over this listing

  /** Every emitted entry is keyed by its own non-empty title. */
  lemma CandidatesKeyedByTitle(u: Unicode, resolve: string -> string, fetch: string -> Page, threads: seq<Thread>)
    ensures KeyedByTitle(u, Candidates(u, resolve, fetch, threads))
  {
    forall i | 0 <= i < |threads| ensures EmitsOwnTitle(u, Classify(u, resolve, fetch, threads[i])) {
      ClassifyKeyedByTitle(u, resolve, fetch, threads[i]);
    }
  }

  lemma ClassifyKeyedByTitle(u: Unicode, resolve: string -> string, fetch: string -> Page, t: Thread)
    ensures EmitsOwnTitle(u, Classify(u, resolve, fetch, t))
  {
    if t.link.Some? && t.link.value.text != "" {
      var o := Accept(u, resolve, fetch, t.link.value, t.author);
      if o.Emit? {
        var url := resolve(t.link.value.href.value);
        var detail := GetThreadDescription(fetch(url));
        var pub := IsoParse(RewriteOffset(detail.publishDate.value)).value;
        assert o.entry.title == t.link.value.text;
      }
    }
  }

  /**
   * An item whose key is not yet in the ledger is passed over exactly when
   * it has no link, its title is empty, or (with an `href`) its detail
   * page gives no description or no publication date.
   */
  lemma ItemSkipped(u: Unicode, resolve: string -> string, fetch: string -> Page, t: Thread, r: Run)
    ensures var c := Classify(u, resolve, fetch, t);
      Step(r, c) == Finished(r) <==>
        || t.link.None?
        || t.link.value.text == ""
        || TitleKey(u, t.link.value.text) in r.ledger
        || (t.link.value.href.Some?
            && var detail := GetThreadDescription(fetch(resolve(t.link.value.href.value)));
               !Truthy(detail.description) || !Truthy(detail.publishDate))
  {
    StepKeeps(r, Classify(u, resolve, fetch, t));
    if t.link.Some? && t.link.value.text != "" {
      AcceptDrops(u, resolve, fetch, t.link.value, t.author);
    }
  }

  /** The rest of the loop body skips the item exactly when the detail page lacks a field. */
  lemma AcceptDrops(u: Unicode, resolve: string -> string, fetch: string -> Page, link: Link, author: Option<string>)
    requires link.text != ""
    ensures Accept(u, resolve, fetch, link, author).Drop? <==>
      link.href.Some? && var detail := GetThreadDescription(fetch(resolve(link.href.value)));
        !Truthy(detail.description) || !Truthy(detail.publishDate)
  {
  }

  /**
   * The rest of the loop body stops the run on a naive date exactly when
   * the page has both fields and its date, after the offset rewrite, reads
   * as a date-time without an offset.
   */
  lemma AcceptNaiveCrashes(u: Unicode, resolve: string -> string, fetch: string -> Page, link: Link, author: Option<string>)
    requires link.text != ""
    ensures Accept(u, resolve, fetch, link, author) == Abort(NaivePublishDate) <==>
      link.href.Some? && var detail := GetThreadDescription(fetch(resolve(link.href.value)));
        && Truthy(detail.description) && Truthy(detail.publishDate)
        && var pub := IsoParse(RewriteOffset(detail.publishDate.value));
           pub.Some? && pub.value.offset.None?
  {
  }

  /** An item with a new key and no `href` stops the run. */
  lemma MissingHrefCrashes(u: Unicode, resolve: string -> string, fetch: string -> Page, t: Thread, r: Run)
    requires t.link.Some? && t.link.value.text != "" && t.link.value.href.None?
    requires TitleKey(u, t.link.value.text) !in r.ledger
    ensures Step(r, Classify(u, resolve, fetch, t)) == Crashed(MissingHref)
  {
  }

  /**
   * The entry the loop builds for item `t`: its link is the item's
   * resolved `href`, its title the item's link text and its author the
   * item's own; id is the title's digest, published equals updated and is
   * the page's date read after the offset rewrite, which carries an
   * offset, the content is the sanitized description (printable
   * characters only), and it counts exactly when its URL is non-empty.
   */
  predicate Built(u: Unicode, resolve: string -> string, fetch: string -> Page, t: Thread, a: Added)
  {
    var e := a.entry;
    var detail := GetThreadDescription(fetch(e.link));
    && t.link.Some? && t.link.value.href.Some?
    && e.link == resolve(t.link.value.href.value)
    && e.title == t.link.value.text
    && e.author == t.author
    && e.id == TitleDigest(e.title)
    && a.key == TitleKey(u, e.title)
    && e.published == e.updated
    && (forall j :: 0 <= j < |e.content| ==> u.isPrintable(e.content[j]))
    && (a.counted <==> e.link != "")
    && Truthy(detail.publishDate)
    && IsoParse(RewriteOffset(detail.publishDate.value)) == Some(e.published)
    && e.published.Aware()
    && Truthy(detail.description)
    && e.content == Sanitize(u, detail.description.value)
  }

  lemma EmittedBuilt(u: Unicode, resolve: string -> string, fetch: string -> Page, t: Thread, a: Added)
    requires Classify(u, resolve, fetch, t) == Keyed(a.key, Emit(a.entry, a.counted))
    ensures Built(u, resolve, fetch, t, a)
    ensures a.entry.link == resolve(t.link.value.href.value)
    ensures a.entry.title == t.link.value.text
    ensures a.entry.author == t.author
  {
    var link := t.link.value;
    var url := resolve(link.href.value);
    var detail := GetThreadDescription(fetch(url));
    var pub := IsoParse(RewriteOffset(detail.publishDate.value)).value;
    assert a.entry == Entry(TitleDigest(link.text), link.text, url, pub, pub, Sanitize(u, detail.description.value), t.author);
    assert a.key == TitleKey(u, link.text) && (a.counted <==> url != "");
  }

  /** Every entry a finished run added was built that way. */
  lemma AddedEntries(u: Unicode, resolve: string -> string, fetch: string -> Page, threads: seq<Thread>, l0: set<string>)
    requires Walk(Candidates(u, resolve, fetch, threads), Start(l0)).Finished?
    ensures var added := Walk(Candidates(u, resolve, fetch, threads), Start(l0)).run.added;
      forall n :: 0 <= n < |added| ==> exists i :: 0 <= i < |threads| && Built(u, resolve, fetch, threads[i], added[n])
  {
    var cs := Candidates(u, resolve, fetch, threads);
    WalkAddsFromListing(cs, Start(l0));
    var added := Walk(cs, Start(l0)).run.added;
    forall n | 0 <= n < |added|
      ensures exists i :: 0 <= i < |threads| && Built(u, resolve, fetch, threads[i], added[n])
    {
      var i :| 0 <= i < |cs| && cs[i] == Keyed(added[n].key, Emit(added[n].entry, added[n].counted));
      assert cs[i] == Classify(u, resolve, fetch, threads[i]);
      EmittedBuilt(u, resolve, fetch, threads[i], added[n]);
    }
  }
}
