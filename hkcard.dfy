/**
 * hkcard.py: the Hong Kong Card forum scraper. The listing is walked in page
 * order and at most fifteen threads become entries; each entry's content is
 * the thread's replies, newest first, under a "Published on" line computed
 * from the newest reply's relative time ("3小時前"). Nothing is deduplicated:
 * the feed is rewritten from scratch on every run that does not crash.
 */
module HkCard {
  import opened Text
  import opened Clock
  import opened Feed

  /** `fetch_feed` stops adding entries once it has this many. */
  const Cap: nat := 15

  /** Threads that are never turned into entries. */
  const ExcludedUrls: seq<string> := [
    "https://www.hongkongcard.com/forum/show/47100",
    "https://www.hongkongcard.com/forum/show/49560",
    "https://www.hongkongcard.com/forum/show/5418"
  ]

  // ---------------------------------------------------------------------
  // Thread pages (`get_thread_description`)

  /**
   * One `reply-item-wrapper`: the serialised `reply-view-root` element, if
   * any, and the stripped text of its `content-thread-create-time` span, if
   * any.
   */
  datatype Reply = Reply(viewRoot: Option<string>, createTime: Option<string>)

  /** What the browser shows once "最後回覆" (latest reply) has been chosen. */
  datatype ThreadPage =
    | NoDropdown                   // no `<select>`: NoSuchElementException, caught
    | NoLatestReply                // the option is missing: caught, returns None
    | Rendered(replies: seq<Reply>)

  /** The outcome of `get_thread_description`. */
  datatype Description =
    | NoDescription                                            // returns None
    | Described(content: string, exactTime: Option<DateTime>)  // returns the pair
    | DescriptionFailed(failure: Failure)                      // an exception escapes

  /**
   * A reply contributes a block only when it has both parts: without a view
   * root it is passed over, and without a create-time span `get_text` raises
   * AttributeError, which skips it as well.
   */
  predicate Complete(r: Reply)
  {
    r.viewRoot.Some? && r.createTime.Some?
  }

  function ReplyBlock(stamp: string, markup: string): string
  {
    "<div><strong>" + stamp + ":</strong> " + markup + "</div>"
  }

  function BlockOf(r: Reply): string
    requires Complete(r)
  {
    ReplyBlock(r.createTime.value, r.viewRoot.value)
  }

  /** The blocks of the complete replies, in page order: `content_list`. */
  function Blocks(rs: seq<Reply>): seq<string>
  {
    if rs == [] then []
    else
      var r := rs[|rs| - 1];
      Blocks(rs[..|rs| - 1]) + (if Complete(r) then [BlockOf(r)] else [])
  }

  /**
   * The value `timestamp` holds after the reply loop: the create time of the
   * last complete reply, or None when the variable was never bound.
   */
  function LastStamp(rs: seq<Reply>): (r: Option<string>)
    ensures r.Some? <==> exists i :: 0 <= i < |rs| && Complete(rs[i])
  {
    if rs == [] then None
    else if Complete(rs[|rs| - 1]) then rs[|rs| - 1].createTime
    else
      var r := LastStamp(rs[..|rs| - 1]);
      assert forall i :: 0 <= i < |rs| - 1 ==> rs[..|rs| - 1][i] == rs[i];
      r
  }

  function Reversed<T>(s: seq<T>): (r: seq<T>)
    ensures |r| == |s|
    ensures forall i :: 0 <= i < |s| ==> r[i] == s[|s| - 1 - i]
  {
    if s == [] then [] else [s[|s| - 1]] + Reversed(s[..|s| - 1])
  }

  function PublishedLine(t: Option<DateTime>): string
  {
    "<p>Published on: " + ShowOpt(t) + "</p><br>"
  }

  /**
   * `exact_time`: the relative stamp read against the naive clock (the host
   * is taken to run on Hong Kong time), then localised to Hong Kong. An
   * empty stamp is falsy and is not converted, like one that names no unit;
   * a stamp reaching back before year 1 raises OverflowError.
   */
  function ExactTime(stamp: string, nowUtc: int): Relative
  {
    if stamp == "" then NoMatch
    else match ConvertRelativeTime(stamp, nowUtc + HongKong)
      case Ago(t) => Ago(Localize(Some(t)).value)
      case other => other
  }

  /** `get_thread_description(thread_url)` for the page the URL shows. */
  function ThreadDescription(page: ThreadPage, nowUtc: int): (r: Description)
    ensures r.NoDescription? <==> !page.Rendered?
    ensures r.DescriptionFailed? ==> r.failure == UnboundTimestamp || r.failure == TimeOutOfRange
    ensures r.Described? ==>
      var line := PublishedLine(r.exactTime);
      r.content != "" && |line| <= |r.content| && r.content[..|line|] == line
  {
    match page
    case NoDropdown => NoDescription
    case NoLatestReply => NoDescription
    case Rendered(rs) =>
      match LastStamp(rs)
      case None => DescriptionFailed(UnboundTimestamp)
      case Some(stamp) =>
        var converted := ExactTime(stamp, nowUtc);
        if converted.OutOfRange? then DescriptionFailed(TimeOutOfRange)
        else
          var exact := if converted.Ago? then Some(converted.time) else None;
          var line := PublishedLine(exact);
          var content := line + Join(Break, Reversed(Blocks(rs)));
          assert content[..|line|] == line;
          Described(content, exact)
  }

  /** The reply loop and the assembly of the content string. */
  method GetThreadDescription(page: ThreadPage, nowUtc: int) returns (d: Description)
    ensures d == ThreadDescription(page, nowUtc)
  {
    if !page.Rendered? {
      return NoDescription;
    }
    var replies := page.replies;
    var contentList: seq<string> := [];
    var timestamp: Option<string> := None;
    for i := 0 to |replies|
      invariant contentList == Blocks(replies[..i])
      invariant timestamp == LastStamp(replies[..i])
    {
      var reply := replies[i];
      assert replies[..i + 1][..i] == replies[..i];
      if reply.viewRoot.Some? {
        if reply.createTime.None? {
          continue;
        }
        timestamp := reply.createTime;
        contentList := contentList + [ReplyBlock(timestamp.value, reply.viewRoot.value)];
      }
    }
    assert replies[..|replies|] == replies;
    if timestamp.None? {
      return DescriptionFailed(UnboundTimestamp);
    }
    var exactTime: Option<DateTime> := None;
    if timestamp.value != "" {
      var converted := ConvertRelativeTime(timestamp.value, nowUtc + HongKong);
      if converted.OutOfRange? {
        return DescriptionFailed(TimeOutOfRange);
      }
      if converted.Ago? {
        exactTime := Some(converted.time);
      }
    }
    if exactTime.Some? && exactTime.value.offset.None? {
      exactTime := Some(DateTime(exactTime.value.wall, Some(HongKong)));
    }
    var content := PublishedLine(exactTime) + Join(Break, Reversed(contentList));
    d := Described(content, exactTime);
  }

  /** Blocks keep page order: the blocks of a concatenation concatenate. */
  lemma {:induction false} BlocksAppend(a: seq<Reply>, b: seq<Reply>)
    ensures Blocks(a + b) == Blocks(a) + Blocks(b)
  {
    if b == [] {
      assert a + b == a;
    } else {
      var b0 := b[..|b| - 1];
      assert (a + b)[..|a + b| - 1] == a + b0;
      assert (a + b)[|a + b| - 1] == b[|b| - 1];
      BlocksAppend(a, b0);
    }
  }

  /** A block appears exactly for each complete reply. */
  lemma {:induction false} BlocksMembership(rs: seq<Reply>, block: string)
    ensures block in Blocks(rs) <==> exists i :: 0 <= i < |rs| && Complete(rs[i]) && block == BlockOf(rs[i])
  {
    if rs != [] {
      var init := rs[..|rs| - 1];
      BlocksMembership(init, block);
      assert forall i :: 0 <= i < |init| ==> init[i] == rs[i];
      if exists i :: 0 <= i < |rs| && Complete(rs[i]) && block == BlockOf(rs[i]) {
        var i :| 0 <= i < |rs| && Complete(rs[i]) && block == BlockOf(rs[i]);
        if i < |init| {
          assert Complete(init[i]) && block == BlockOf(init[i]);
        }
      }
    }
  }

  /**
   * The newest complete reply is shown first, and it is the reply whose
   * create time the "Published on" line is computed from.
   */
  lemma NewestReplyFirst(rs: seq<Reply>)
    requires LastStamp(rs).Some?
    ensures |Blocks(rs)| > 0
    ensures exists i :: (0 <= i < |rs| && Complete(rs[i]) && (forall j :: i < j < |rs| ==> !Complete(rs[j]))
      && LastStamp(rs) == rs[i].createTime && Reversed(Blocks(rs))[0] == BlockOf(rs[i]))
  {
    LastBlock(rs);
    var i := LastComplete(rs);
    assert Complete(rs[i]);
  }

  /** The index of the last complete reply, or -1 when there is none. */
  function LastComplete(rs: seq<Reply>): (i: int)
    ensures -1 <= i < |rs|
    ensures i >= 0 ==> Complete(rs[i])
    ensures forall j :: i < j < |rs| ==> !Complete(rs[j])
  {
    if rs == [] then -1
    else if Complete(rs[|rs| - 1]) then |rs| - 1
    else
      var i := LastComplete(rs[..|rs| - 1]);
      assert forall j :: i < j < |rs| - 1 ==> rs[..|rs| - 1][j] == rs[j];
      i
  }

  /** The last block and the stamp both come from the last complete reply. */
  lemma {:induction false} LastBlock(rs: seq<Reply>)
    requires LastStamp(rs).Some?
    ensures var i := LastComplete(rs);
      i >= 0 && |Blocks(rs)| > 0 && LastStamp(rs) == rs[i].createTime && Blocks(rs)[|Blocks(rs)| - 1] == BlockOf(rs[i])
  {
    var n := |rs|;
    var init := rs[..n - 1];
    if !Complete(rs[n - 1]) {
      LastBlock(init);
      assert init[LastComplete(init)] == rs[LastComplete(init)];
      assert Blocks(rs) == Blocks(init) + [];
    }
  }

  /**
   * The description fails on the unbound `timestamp` exactly when no reply
   * is complete, and on the overflow exactly when the newest complete
   * reply's stamp reaches back before year 1; it fails in no other way.
   */
  lemma DescriptionFailures(replies: seq<Reply>, nowUtc: int)
    ensures ThreadDescription(Rendered(replies), nowUtc) == DescriptionFailed(UnboundTimestamp)
        <==> forall i :: 0 <= i < |replies| ==> !Complete(replies[i])
    ensures ThreadDescription(Rendered(replies), nowUtc) == DescriptionFailed(TimeOutOfRange)
        <==> LastStamp(replies).Some? && ExactTime(LastStamp(replies).value, nowUtc).OutOfRange?
    ensures ThreadDescription(Rendered(replies), nowUtc).DescriptionFailed?
        ==> ThreadDescription(Rendered(replies), nowUtc).failure in {UnboundTimestamp, TimeOutOfRange}
  {
  }

  /**
   * A converted stamp is an aware Hong Kong time, not before year 1 and no
   * later than the run's clock; an empty or unrecognised stamp gives no
   * time, and a stamp reaching back before year 1 overflows.
   */
  lemma ExactTimeInPast(stamp: string, nowUtc: int)
    ensures ExactTime(stamp, nowUtc).NoMatch? <==> stamp == "" || ConvertRelativeTime(stamp, nowUtc + HongKong).NoMatch?
    ensures ExactTime(stamp, nowUtc).OutOfRange? <==> stamp != "" && ConvertRelativeTime(stamp, nowUtc + HongKong).OutOfRange?
    ensures ExactTime(stamp, nowUtc).Ago? ==>
      var t := ExactTime(stamp, nowUtc).time;
      t.offset == Some(HongKong) && t.Instant() <= nowUtc && MinWall <= t.wall
  {
    if stamp != "" && ConvertRelativeTime(stamp, nowUtc + HongKong).Ago? {
      RelativeTimeNotAfterNow(stamp, nowUtc + HongKong);
    }
  }

  // ---------------------------------------------------------------------
  // The listing walk (`fetch_feed`)

  /**
   * One `.thread-container-parent`: the `href` of its `forum-thread-container`
   * link (None when the link or the attribute is missing) and the stripped
   * text of its `.thread-title-content` span (None when there is no span).
   */
  datatype Thread = Thread(href: Option<string>, titleSpan: Option<string>)

  /**
   * What a run depends on besides the listing: `urljoin(base_url, ·)`, the
   * thread page each URL shows, and the run's clock in UTC seconds (it
   * supplies `datetime.now()` and `int(time.time())` alike).
   */
  datatype Context = Context(resolve: string -> string, fetch: string -> ThreadPage, nowUtc: int)

  /**
   * The loop's variables: the entries added so far, `new_entries`, and the
   * binding of `entry_pub_date` (None while it is unbound).
   */
  datatype CardRun = CardRun(entries: seq<Entry>, newEntries: nat, pubDate: Option<DateTime>)

  datatype Result = Crashed(failure: Failure) | Finished(run: CardRun)

  const Start: CardRun := CardRun([], 0, None)

  /**
   * What one thread amounts to, whatever the loop state: passed over by
   * one of the four `continue`s; its description raised; its description
   * is None, so the entry takes whatever `entry_pub_date` holds; or it is
   * described, with the content and date the entry gets.
   */
  datatype Outcome =
    | Skip
    | Fail(url: string, title: string, failure: Failure)
    | Stale(url: string, title: string)
    | Fresh(url: string, title: string, description: string, pub: DateTime)

  /** The thread URL when the item passes the four filters of the loop. */
  function Eligible(ctx: Context, t: Thread): (r: Option<string>)
    ensures r.Some? ==> (r.value !in ExcludedUrls && t.href.Some? && Contains(t.href.value, "forum")
      && r.value == ctx.resolve(t.href.value) && t.titleSpan.Some?)
  {
    if t.href.None? || !Contains(t.href.value, "forum") then None
    else
      var url := ctx.resolve(t.href.value);
      if url in ExcludedUrls || t.titleSpan.None? then None else Some(url)
  }

  /** The URL and the stripped title of each eligible thread, in listing order. */
  function EligiblePicks(ctx: Context, ts: seq<Thread>): (r: seq<(string, string)>)
    ensures forall p :: p in r ==> p.0 !in ExcludedUrls
    ensures |r| <= |ts|
  {
    if ts == [] then []
    else
      var first := if Eligible(ctx, ts[0]).Some? then [(Eligible(ctx, ts[0]).value, ts[0].titleSpan.value)] else [];
      first + EligiblePicks(ctx, ts[1..])
  }

  function Classify(ctx: Context, t: Thread): Outcome
  {
    match Eligible(ctx, t)
    case None => Skip
    case Some(url) =>
      var title := t.titleSpan.value;
      match ThreadDescription(ctx.fetch(url), ctx.nowUtc)
      case DescriptionFailed(f) => Fail(url, title, f)
      case NoDescription => Stale(url, title)
      case Described(content, exact) =>
        Fresh(url, title, if content != "" then "\n" + content else "",
              if exact.Some? then exact.value else NowInHongKong(ctx.nowUtc))
  }

  function Outcomes(ctx: Context, ts: seq<Thread>): (os: seq<Outcome>)
    ensures |os| == |ts|
  {
    seq(|ts|, i requires 0 <= i < |ts| => Classify(ctx, ts[i]))
  }

  /** The entry for a thread, published and updated at `pub`, which `entry_pub_date` keeps. */
  function Add(nowUtc: int, s: CardRun, url: string, title: string, description: string, pub: DateTime): CardRun
  {
    CardRun(s.entries + [Entry(UrlAtClock(url, nowUtc), title, url, pub, pub, description, None)],
            s.newEntries + 1, Some(pub))
  }

  /** One pass of the loop body, below the cap. */
  function Step(nowUtc: int, s: CardRun, o: Outcome): Result
  {
    match o
    case Skip => Finished(s)
    case Fail(_, _, f) => Crashed(f)
    case Stale(url, title) =>
      if s.pubDate.None? then Crashed(UnboundPublishDate)
      else Finished(Add(nowUtc, s, url, title, "", s.pubDate.value))
    case Fresh(url, title, description, pub) => Finished(Add(nowUtc, s, url, title, description, pub))
  }

  /** The loop from `s` over the outcomes `os`, stopping at the cap or the first exception. */
  function Walk(nowUtc: int, os: seq<Outcome>, s: CardRun): Result
    decreases |os|
  {
    if os == [] || s.newEntries >= Cap then Finished(s)
    else match Step(nowUtc, s, os[0])
      case Crashed(f) => Crashed(f)
      case Finished(s2) => Walk(nowUtc, os[1..], s2)
  }

  /** The body of the listing loop for one thread. */
  method VisitThread(ctx: Context, thread: Thread, s: CardRun) returns (res: Result)
    ensures res == Step(ctx.nowUtc, s, Classify(ctx, thread))
  {
    var outcome := ClassifyThread(ctx, thread);
    match outcome {
      case Skip =>
        return Finished(s);
      case Fail(_, _, f) =>
        return Crashed(f);
      case Stale(url, title) =>
        if s.pubDate.None? {
          return Crashed(UnboundPublishDate);
        }
        return Finished(Add(ctx.nowUtc, s, url, title, "", s.pubDate.value));
      case Fresh(url, title, description, pub) =>
        return Finished(Add(ctx.nowUtc, s, url, title, description, pub));
    }
  }

  /** The checks of the loop body and the detail page, up to the entry's fields. */
  method ClassifyThread(ctx: Context, thread: Thread) returns (o: Outcome)
    ensures o == Classify(ctx, thread)
  {
    if thread.href.None? {
      return Skip;
    }
    var href := thread.href.value;
    if !Contains(href, "forum") {
      return Skip;
    }
    var url := ctx.resolve(href);
    if url in ExcludedUrls {
      return Skip;
    }
    if thread.titleSpan.None? {
      return Skip;
    }
    var title := thread.titleSpan.value;
    var desc := GetThreadDescription(ctx.fetch(url), ctx.nowUtc);
    if desc.DescriptionFailed? {
      return Fail(url, title, desc.failure);
    }
    if desc.NoDescription? {
      return Stale(url, title);
    }
    var description := "";
    if desc.content != "" {
      description := "\n" + desc.content;
    }
    var pubDate := if desc.exactTime.Some? then desc.exactTime.value else NowInHongKong(ctx.nowUtc);
    return Fresh(url, title, description, pubDate);
  }

  /** No entry has an empty title. */
  predicate Titled(entries: seq<Entry>)
  {
    forall e :: e in entries ==> e.title != ""
  }

  /**
   * `fg.atom_file(atom_file)` after the loop: feedgen refuses ("Required
   * fields not set") to serialise an entry whose title is empty.
   */
  function Publish(r: Result): Result
  {
    if r.Finished? && !Titled(r.run.entries) then Crashed(UntitledEntry) else r
  }

  /**
   * `fetch_feed` over the threads of the listing page. The feed file is
   * written (from scratch) exactly when no exception escapes the loop or
   * the serialisation.
   */
  method FetchFeed(ctx: Context, listing: seq<Thread>) returns (res: Result, written: bool)
    ensures res == Publish(Walk(ctx.nowUtc, Outcomes(ctx, listing), Start))
    ensures written <==> res.Finished?
  {
    ghost var os := Outcomes(ctx, listing);
    var state := Start;
    var i := 0;
    while i < |listing|
      invariant 0 <= i <= |listing|
      invariant Walk(ctx.nowUtc, os[i..], state) == Walk(ctx.nowUtc, os, Start)
    {
      if state.newEntries >= Cap {
        break;
      }
      var next := VisitThread(ctx, listing[i], state);
      assert os[i..][0] == os[i] == Classify(ctx, listing[i]);
      assert os[i..][1..] == os[i + 1..];
      if next.Crashed? {
        return next, false;
      }
      state := next.run;
      i := i + 1;
    }
    assert Walk(ctx.nowUtc, os, Start) == Finished(state);
    if !Titled(state.entries) {
      return Crashed(UntitledEntry), false;
    }
    res := Finished(state);
    written := true;
  }

  // ---------------------------------------------------------------------
  // Properties of the walk

  /** A thread is passed over exactly when it is not eligible; otherwise its outcome carries the thread URL. */
  lemma ClassifyEligible(ctx: Context, t: Thread)
    ensures Classify(ctx, t).Skip? <==> Eligible(ctx, t).None?
    ensures !Classify(ctx, t).Skip? ==>
      Classify(ctx, t).url == Eligible(ctx, t).value && Classify(ctx, t).title == t.titleSpan.value
  {
  }

  /** The URL and title each outcome that is not passed over carries. */
  function Picks(os: seq<Outcome>): seq<(string, string)>
  {
    if os == [] then [] else (if os[0].Skip? then [] else [(os[0].url, os[0].title)]) + Picks(os[1..])
  }

  lemma PicksOfOutcomes(ctx: Context, ts: seq<Thread>)
    ensures Picks(Outcomes(ctx, ts)) == EligiblePicks(ctx, ts)
  {
    var os := Outcomes(ctx, ts);
    forall k | 0 <= k < |os| ensures Tracks(ctx, os[k], ts[k]) {
      ClassifyEligible(ctx, ts[k]);
    }
    PicksOfTracking(ctx, os, ts);
  }

  /**
   * The outcome `o` passes over `t` exactly when it is not eligible, and
   * otherwise carries its URL and its title.
   */
  predicate Tracks(ctx: Context, o: Outcome, t: Thread)
  {
    if o.Skip? then Eligible(ctx, t).None? else Eligible(ctx, t) == Some(o.url) && t.titleSpan == Some(o.title)
  }

  lemma {:induction false} PicksOfTracking(ctx: Context, os: seq<Outcome>, ts: seq<Thread>)
    requires |os| == |ts| && forall k :: 0 <= k < |os| ==> Tracks(ctx, os[k], ts[k])
    ensures Picks(os) == EligiblePicks(ctx, ts)
  {
    if ts != [] {
      assert Tracks(ctx, os[0], ts[0]);
      assert forall k :: 0 <= k < |os[1..]| ==> os[1..][k] == os[k + 1] && ts[1..][k] == ts[k + 1];
      PicksOfTracking(ctx, os[1..], ts[1..]);
    }
  }

  /** The link and the title of each entry. */
  function Picked(es: seq<Entry>): seq<(string, string)>
  {
    seq(|es|, i requires 0 <= i < |es| => (es[i].link, es[i].title))
  }

  /** The first `n` elements of `xs`, or all of them when there are fewer. */
  function Take<T>(xs: seq<T>, n: int): (r: seq<T>)
    ensures |r| == if n <= 0 then 0 else if n < |xs| then n else |xs|
  {
    if n <= 0 then [] else if n >= |xs| then xs else xs[..n]
  }

  lemma TakeCons<T>(x: T, xs: seq<T>, n: int)
    requires n >= 1
    ensures Take([x] + xs, n) == [x] + Take(xs, n - 1)
  {
    if n - 1 >= |xs| {
      assert Take(xs, n - 1) == xs;
    } else {
      assert ([x] + xs)[..n] == [x] + xs[..n - 1];
    }
  }

  predicate Counting(s: CardRun)
  {
    |s.entries| == s.newEntries <= Cap
  }

  /**
   * One step adds nothing for a skipped thread, and otherwise exactly one
   * entry linking to the thread URL under the thread's title.
   */
  lemma StepPicks(nowUtc: int, s: CardRun, o: Outcome)
    requires Step(nowUtc, s, o).Finished?
    ensures var s2 := Step(nowUtc, s, o).run;
      if o.Skip? then s2 == s
      else s2.newEntries == s.newEntries + 1 && Picked(s2.entries) == Picked(s.entries) + [(o.url, o.title)]
  {
  }

  /**
   * The entries of a finished walk link, in order, to the URLs of the next
   * threads that are not passed over, under their titles, as many as the
   * cap still allows.
   */
  lemma {:induction false} WalkTakesFirst(nowUtc: int, os: seq<Outcome>, s: CardRun)
    requires Counting(s)
    requires Walk(nowUtc, os, s).Finished?
    ensures Counting(Walk(nowUtc, os, s).run)
    ensures Picked(Walk(nowUtc, os, s).run.entries) == Picked(s.entries) + Take(Picks(os), Cap - s.newEntries)
  {
    if os == [] || s.newEntries >= Cap {
      assert Take(Picks(os), Cap - s.newEntries) == [];
    } else {
      WalkUnfolds(nowUtc, os, s);
      var s2 := Step(nowUtc, s, os[0]).run;
      StepPicks(nowUtc, s, os[0]);
      WalkTakesFirst(nowUtc, os[1..], s2);
      TakeNext(Picked(s.entries), os, Cap - s.newEntries);
    }
  }

  /** Below the cap, a finished walk is its first step followed by the walk over the rest. */
  lemma WalkUnfolds(nowUtc: int, os: seq<Outcome>, s: CardRun)
    requires os != [] && s.newEntries < Cap
    requires Walk(nowUtc, os, s).Finished?
    ensures Step(nowUtc, s, os[0]).Finished?
    ensures Walk(nowUtc, os, s) == Walk(nowUtc, os[1..], Step(nowUtc, s, os[0]).run)
  {
  }

  /** Taking `n` picks of `os` is taking the first one's, if any, and then the rest. */
  lemma TakeNext(a: seq<(string, string)>, os: seq<Outcome>, n: int)
    requires os != [] && n >= 1
    ensures os[0].Skip? ==> a + Take(Picks(os), n) == a + Take(Picks(os[1..]), n)
    ensures !os[0].Skip? ==> a + Take(Picks(os), n) == (a + [(os[0].url, os[0].title)]) + Take(Picks(os[1..]), n - 1)
  {
    var rest := Picks(os[1..]);
    if os[0].Skip? {
      assert Picks(os) == [] + rest == rest;
    } else {
      var pick := (os[0].url, os[0].title);
      assert Picks(os) == [pick] + rest;
      TakeCons(pick, rest, n);
    }
  }

  /**
   * A run that finishes has at most fifteen entries, linking to the first
   * eligible threads of the listing in order and titled by their title
   * spans; no excluded thread is among them.
   */
  lemma RunTakesFirstEligible(ctx: Context, listing: seq<Thread>)
    requires Walk(ctx.nowUtc, Outcomes(ctx, listing), Start).Finished?
    ensures var r := Walk(ctx.nowUtc, Outcomes(ctx, listing), Start).run;
      |r.entries| == r.newEntries <= Cap
      && Picked(r.entries) == Take(EligiblePicks(ctx, listing), Cap)
      && forall e :: e in r.entries ==> e.link !in ExcludedUrls
  {
    var os := Outcomes(ctx, listing);
    WalkTakesFirst(ctx.nowUtc, os, Start);
    PicksOfOutcomes(ctx, listing);
    var r := Walk(ctx.nowUtc, os, Start).run;
    assert Picked(Start.entries) == [];
    var ps := EligiblePicks(ctx, listing);
    forall e | e in r.entries ensures e.link !in ExcludedUrls {
      var k :| 0 <= k < |r.entries| && r.entries[k] == e;
      assert Picked(r.entries)[k] == (e.link, e.title);
      assert (e.link, e.title) in ps;
    }
  }

  /**
   * A loop that finishes is written out exactly when none of the first
   * fifteen eligible threads has an empty title span; otherwise feedgen
   * refuses the feed and nothing is written.
   */
  lemma PublishNeedsTitles(ctx: Context, listing: seq<Thread>)
    requires Walk(ctx.nowUtc, Outcomes(ctx, listing), Start).Finished?
    ensures var r := Walk(ctx.nowUtc, Outcomes(ctx, listing), Start);
      Publish(r) == (if exists p :: p in Take(EligiblePicks(ctx, listing), Cap) && p.1 == ""
                     then Crashed(UntitledEntry) else r)
  {
    RunTakesFirstEligible(ctx, listing);
    var r := Walk(ctx.nowUtc, Outcomes(ctx, listing), Start).run;
    var ps := Take(EligiblePicks(ctx, listing), Cap);
    if exists p :: p in ps && p.1 == "" {
      var p :| p in ps && p.1 == "";
      var k :| 0 <= k < |ps| && ps[k] == p;
      assert Picked(r.entries)[k] == p;
      assert r.entries[k] in r.entries;
    } else {
      forall e | e in r.entries ensures e.title != "" {
        var k :| 0 <= k < |r.entries| && r.entries[k] == e;
        assert Picked(r.entries)[k] in ps;
      }
    }
  }

  /**
   * Every entry carries the thread URL with the run's clock as its id, no
   * author, the same published and updated time on Hong Kong's offset, and
   * content that is empty or starts with a newline.
   */
  predicate WellFormed(nowUtc: int, s: CardRun)
  {
    (s.pubDate.Some? ==> s.pubDate.value.offset == Some(HongKong))
    && forall e :: e in s.entries ==>
      e.id == UrlAtClock(e.link, nowUtc) && e.author.None? && e.published == e.updated
      && e.published.offset == Some(HongKong) && (e.content == "" || e.content[0] == '\n')
  }

  /**
   * A described thread carries its page's content behind a newline, or
   * none when the content is empty, and is dated by the page's exact time
   * or else by now, on Hong Kong's offset either way.
   */
  lemma ClassifyFresh(ctx: Context, t: Thread)
    requires Classify(ctx, t).Fresh?
    ensures var d := ThreadDescription(ctx.fetch(Eligible(ctx, t).value), ctx.nowUtc);
      && d.Described?
      && Classify(ctx, t).description == (if d.content != "" then "\n" + d.content else "")
      && Classify(ctx, t).pub == (if d.exactTime.Some? then d.exactTime.value else NowInHongKong(ctx.nowUtc))
    ensures Classify(ctx, t).pub.offset == Some(HongKong)
    ensures Classify(ctx, t).description == "" || Classify(ctx, t).description[0] == '\n'
  {
    var url := Eligible(ctx, t).value;
    var page := ctx.fetch(url);
    var d := ThreadDescription(page, ctx.nowUtc);
    if d.exactTime.Some? {
      ExactTimeInPast(LastStamp(page.replies).value, ctx.nowUtc);
    }
  }

  /** An outcome whose entry would be well formed. */
  predicate Dated(o: Outcome)
  {
    o.Fresh? ==> o.pub.offset == Some(HongKong) && (o.description == "" || o.description[0] == '\n')
  }

  lemma StepWellFormed(nowUtc: int, s: CardRun, o: Outcome)
    requires WellFormed(nowUtc, s) && Dated(o)
    requires Step(nowUtc, s, o).Finished?
    ensures WellFormed(nowUtc, Step(nowUtc, s, o).run)
  {
  }

  lemma {:induction false} WalkWellFormed(nowUtc: int, os: seq<Outcome>, s: CardRun)
    requires forall k :: 0 <= k < |os| ==> Dated(os[k])
    requires WellFormed(nowUtc, s)
    requires Walk(nowUtc, os, s).Finished?
    ensures WellFormed(nowUtc, Walk(nowUtc, os, s).run)
  {
    if os != [] && s.newEntries < Cap {
      StepWellFormed(nowUtc, s, os[0]);
      assert forall k :: 0 <= k < |os[1..]| ==> os[1..][k] == os[k + 1];
      WalkWellFormed(nowUtc, os[1..], Step(nowUtc, s, os[0]).run);
    }
  }

  /**
   * Every entry of a finished run carries the thread URL with the run's
   * clock as its id, no author, and the same published and updated time
   * on Hong Kong's offset; its content is empty or starts with a newline.
   */
  lemma RunWellFormed(ctx: Context, listing: seq<Thread>)
    requires Walk(ctx.nowUtc, Outcomes(ctx, listing), Start).Finished?
    ensures WellFormed(ctx.nowUtc, Walk(ctx.nowUtc, Outcomes(ctx, listing), Start).run)
  {
    var os := Outcomes(ctx, listing);
    forall k | 0 <= k < |os| ensures Dated(os[k]) {
      if os[k].Fresh? {
        ClassifyFresh(ctx, listing[k]);
      }
    }
    WalkWellFormed(ctx.nowUtc, os, Start);
  }

  /**
   * A thread whose page gives no description is published at the date the
   * previous entry got, and with empty content; with no previous entry
   * the run stops on the unbound variable.
   */
  lemma StaleDateReused(ctx: Context, t: Thread, s: CardRun)
    requires Eligible(ctx, t).Some?
    requires ThreadDescription(ctx.fetch(Eligible(ctx, t).value), ctx.nowUtc).NoDescription?
    ensures var r := Step(ctx.nowUtc, s, Classify(ctx, t));
      if s.pubDate.None? then r == Crashed(UnboundPublishDate)
      else (r.Finished? && |r.run.entries| == |s.entries| + 1
        && var e := r.run.entries[|s.entries|];
           e.published == s.pubDate.value && e.content == "" && e.link == Eligible(ctx, t).value)
  {
  }

  /**
   * A thread whose page gives a description is added, whatever the loop
   * state, with that content behind a newline and dated by the page's
   * exact time or else by now; that date becomes `entry_pub_date`.
   */
  lemma FreshDateSet(ctx: Context, t: Thread, s: CardRun)
    requires Eligible(ctx, t).Some?
    requires ThreadDescription(ctx.fetch(Eligible(ctx, t).value), ctx.nowUtc).Described?
    ensures var d := ThreadDescription(ctx.fetch(Eligible(ctx, t).value), ctx.nowUtc);
      var pub := if d.exactTime.Some? then d.exactTime.value else NowInHongKong(ctx.nowUtc);
      var r := Step(ctx.nowUtc, s, Classify(ctx, t));
      && r.Finished? && |r.run.entries| == |s.entries| + 1
      && r.run.pubDate == Some(pub)
      && var e := r.run.entries[|s.entries|];
         && e.published == e.updated == pub
         && e.content == (if d.content != "" then "\n" + d.content else "")
         && e.link == Eligible(ctx, t).value && e.title == t.titleSpan.value
  {
  }

  lemma {:induction false} WalkStaleFirst(nowUtc: int, os: seq<Outcome>, i: int, s: CardRun)
    requires 0 <= i < |os| && s.pubDate.None? && s.newEntries < Cap
    requires forall k :: 0 <= k < i ==> os[k].Skip?
    requires os[i].Stale?
    ensures Walk(nowUtc, os, s) == Crashed(UnboundPublishDate)
  {
    if i > 0 {
      assert forall k :: 0 <= k < i - 1 ==> os[1..][k] == os[k + 1];
      WalkStaleFirst(nowUtc, os[1..], i - 1, s);
    }
  }

  /**
   * When the first eligible thread of the listing gives no description, the
   * run crashes on the unbound publish date and writes nothing.
   */
  lemma FirstUndescribedCrashes(ctx: Context, listing: seq<Thread>, i: int)
    requires 0 <= i < |listing|
    requires forall k :: 0 <= k < i ==> Eligible(ctx, listing[k]).None?
    requires Eligible(ctx, listing[i]).Some?
    requires ThreadDescription(ctx.fetch(Eligible(ctx, listing[i]).value), ctx.nowUtc).NoDescription?
    ensures Walk(ctx.nowUtc, Outcomes(ctx, listing), Start) == Crashed(UnboundPublishDate)
  {
    var os := Outcomes(ctx, listing);
    forall k | 0 <= k < i ensures os[k].Skip? {
      ClassifyEligible(ctx, listing[k]);
    }
    WalkStaleFirst(ctx.nowUtc, os, i, Start);
  }
}
