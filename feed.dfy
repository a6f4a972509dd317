/**
 * The Atom entries the three scrapers add to their feed generator, and the
 * ways a run can stop with an uncaught exception.
 */
module Feed {
  import opened Text
  import opened Clock

  /** The `id` given to an entry. */
  datatype EntryId =
    | TitleDigest(title: string)            // md5 hex digest of the title (hkdiscuss.py)
    | ThreadUrl(url: string)                // the thread URL itself (hknet.py)
    | UrlAtClock(url: string, seconds: int) // "{url}#{int(time.time())}" (hkcard.py)

  datatype Entry = Entry(
    id: EntryId,
    title: string,
    link: string,
    published: DateTime,
    updated: DateTime,
    content: string,
    author: Option<string>)

  /** An exception that escapes `fetch_feed`: the run stops and writes nothing. */
  datatype Failure =
    | MissingHref         // `title_tag['href']` raises KeyError
    | UnparsableDate      // `datetime.fromisoformat` raises ValueError
    | UnboundPublishDate  // `entry_pub_date` read before any assignment
    | UnboundTimestamp    // `timestamp` read before any assignment
    | TimeOutOfRange      // `now - timedelta(...)` before year 1 raises OverflowError
    | NaivePublishDate    // feedgen's `entry.published` raises ValueError on a naive datetime
    | UntitledEntry       // feedgen's `atom_file` raises ValueError on an entry with an empty title

  /** `"<br>".join(parts)`; the separator between blocks of markup. */
  const Break: string := "<br>"
}
