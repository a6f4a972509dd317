# Forum and news scrapers to Atom: a verified model

Three scripts turn Hong Kong web listings into Atom feeds:

- `hkdiscuss.py` turns discuss.com.hk forum listings into feeds.
- `hknet.py` turns the HKET news listing into a feed.
- `hkcard.py` turns the Hong Kong Card forum into a feed.

Each script walks the items of a listing page and fetches every item's detail page. It builds an entry from the title, the link, a publication time and a description, and then writes the feed. This project models the deterministic part of that work in Dafny and proves properties of the model. The fetched pages, the browser, the HTML parser and the clock become inputs.

The modules are:

- `Text`: Python's `strip`, `lower`, `isspace`, `sanitize_string`, `in` on strings, and `"<br>".join`.
- `Clock`: date-times as wall-clock seconds plus an optional UTC offset. It covers the civil calendar and the subset of `datetime.fromisoformat` that the pages use. It also covers hkdiscuss's offset rewrite, `parse_time`, hknet's `HH:MM` rule, hkcard's `convert_relative_time`, `pytz` localisation to Hong Kong, and `str(datetime)`.
- `Feed`: the entries and the exceptions that can escape a run.
- `Ledger`: the title-key ledger (`get_existing_entries`) and the dedup listing walk that hkdiscuss and hknet share. The walk turns each item into a candidate that is either unkeyed or keyed by its title. The keyed outcome does not depend on the ledger. The loop's methods are proved equal to a fold over those candidates.
- `Markup`: the cleaning of hknet's content container over an element tree. Image attributes are rewritten, script/style/iframe/noscript elements are removed, and paragraphs without visible text are removed.
- `HkDiscuss`, `HkNet`, `HkCard`: one module per script. Each has its `get_thread_description`, the per-item loop body as a method, and `fetch_feed` as a method. Lemmas relate each of them to the walk.

## Model

| member | source | states |
|---|---|---|
| Text.Sanitize | hkdiscuss.py:11-12 | The result is never longer than the input, and every character in it is printable. |
| Text.SanitizeAppend | hkdiscuss.py:11-12 | Sanitising distributes over concatenation, so the kept characters stay in their original order. |
| Text.SanitizeCounts | hkdiscuss.py:11-12 | Each printable character occurs exactly as often as in the input, and no other character occurs. |
| Text.SanitizeKeepsPrintable | hkdiscuss.py:11-12 | An input that is already printable is returned unchanged. |
| Text.SanitizeIdempotent | hkdiscuss.py:11-12 | Sanitising twice is the same as sanitising once. |
| Text.TrimLeft | hkdiscuss.py:113 | `lstrip` returns a suffix of the input. Everything it removed is whitespace, and what remains does not start with whitespace. |
| Text.TrimRight | hkdiscuss.py:113 | `rstrip` returns a prefix of the input. Everything it removed is whitespace, and what remains does not end with whitespace. |
| Text.Strip | hkdiscuss.py:113 | `strip` is never longer than its input, and a non-empty result has no whitespace at either end. |
| Text.Lower | hkdiscuss.py:113 | `lower` maps each character and keeps the length. |
| Text.TrimLeftPadded | hkdiscuss.py:113 | Leading whitespace never changes `lstrip`. |
| Text.TrimRightPadded | hkdiscuss.py:113 | Trailing whitespace never changes `rstrip`. |
| Text.TrimLeftBlank | hkdiscuss.py:113 | `lstrip` of a blank string is empty. |
| Text.TrimLeftAppend | hkdiscuss.py:113 | Once a non-space character has been seen, `lstrip` keeps everything after it. |
| Text.StripPadded | hkdiscuss.py:113 | Whitespace padding at either end never changes `strip`. |
| Text.StripTrimmed | hkdiscuss.py:113 | A string with no whitespace at either end is its own `strip`. |
| Text.StripIdempotent | hkdiscuss.py:113 | `strip` of a stripped string changes nothing. |
| Text.StripEmptyIffBlank | hkdiscuss.py:113 | `strip` is empty exactly when the input is all whitespace. |
| Text.LowerAppend | hkdiscuss.py:113 | `lower` distributes over concatenation. |
| Text.LowerIdempotent | hkdiscuss.py:113 | Lower-casing twice is the same as lower-casing once. |
| Text.TrimLeftLower | hkdiscuss.py:113 | `lstrip` and `lower` commute. |
| Text.TrimRightLower | hkdiscuss.py:113 | `rstrip` and `lower` commute. |
| Text.StripLower | hkdiscuss.py:113 | `strip` and `lower` commute. |
| Text.TitleKeyIdempotent | hkdiscuss.py:60 | Normalising a normalised title key with `strip().lower()` leaves it unchanged. |
| Text.TitleKeyIgnoresPadding | hkdiscuss.py:113 | Titles that differ only by surrounding whitespace have the same key. |
| Text.TitleKeyIgnoresCase | hkdiscuss.py:113 | A title and its lower-cased form have the same key. |
| Text.TitleKeyEmptyIffBlank | hkdiscuss.py:113 | A title's key is empty exactly when the title is blank. |
| Text.JoinLength | hkdiscuss.py:37 | `sep.join(parts)` is as long as the parts together plus one separator between each pair of parts. |
| Ledger.TitleKeysMembership | hkdiscuss.py:58-61 | A key is loaded from a file exactly when some entry of that file has a non-empty title with that key. |
| Ledger.TitleKeysHas | hkdiscuss.py:58-61 | The key of every entry of the file with a non-empty title is loaded. |
| Ledger.TitleKeysFrom | hkdiscuss.py:58-61 | Every loaded key comes from an entry of the file with a non-empty title. |
| Ledger.GetExistingEntries | hkdiscuss.py:44-66 | The loop over both paths returns the union of each path's keys. A missing or unreadable path adds nothing, and the other path is still read. |
| Ledger.LoadedKeysMembership | hknet.py:74-96 | A key is loaded exactly when a titled entry of a readable path has it. |
| Ledger.Walk | hkdiscuss.py:102-159 | The loop over the listing either finishes or stops at its first exception. It never reports a failed listing. |
| Ledger.AddOutcome | hkdiscuss.py:141-159 | For an item whose key is not yet known, the tail of the loop body is one step of the walk: a dropped item changes nothing, an exception stops the run, and an added entry is appended, with its key recorded and the counter raised exactly when it counts. |
| Ledger.StepKeeps | hkdiscuss.py:104-159 | An iteration leaves the loop state unchanged exactly when the item has no key, its key is already known, or it is dropped before `add_entry`. |
| Ledger.WalkSnoc | hkdiscuss.py:102-159 | Walking a listing with one more item is the walk of the shorter listing followed by one step, unless the shorter walk already stopped. |
| Ledger.WalkExtends | hkdiscuss.py:102-159 | If the first i items left the loop in some state, the next iteration either ends the whole run with its exception or gives the state after i+1 items. |
| Ledger.CrashSticks | hkdiscuss.py:102-159 | After an exception, no later item is looked at. |
| Ledger.StepConsistent | hkdiscuss.py:113-115 | One iteration keeps the ledger invariant, and the ledger only grows. |
| Ledger.CountedKeysSnoc | hkdiscuss.py:158-159 | Appending an entry adds its key to the counted keys exactly when it counts. |
| Ledger.SnocConsistent | hkdiscuss.py:141-159 | Appending an entry whose key is not yet known keeps the ledger invariant, when the key is recorded and the counter raised exactly for a counted entry. |
| Ledger.WalkConsistent | hkdiscuss.py:113-159 | After any prefix of the listing the ledger invariant holds. The ledger only grows, and at most one entry is added per item. |
| Ledger.RunFromLoaded | hkdiscuss.py:113-165 | In a finished run, no counted entry repeats a loaded key and no two counted entries share a key. The ledger equals the loaded keys plus the counted ones. The feed is written exactly when an entry was counted. |
| Ledger.WalkAgain | hkdiscuss.py:113-115 | A listing run again from a ledger that covers the first run's ledger adds no key and counts nothing. |
| Ledger.StepFrom | hkdiscuss.py:113-115 | An iteration that finishes from one ledger also finishes from any larger ledger that covers its result, and there it changes neither the ledger nor the counter. |
| Ledger.RerunCountsNothing | hkdiscuss.py:161-165 | A second run whose ledger holds the first run's ledger counts nothing and does not write the feed. |
| Ledger.WalkAddsFromListing | hkdiscuss.py:141-147 | Every added entry comes from an item of the listing with that key and that entry. |
| Ledger.WalkWithoutEmit | hknet.py:172-173 | A listing in which no item reaches `add_entry` leaves the loop state unchanged. |
| Ledger.ReloadHasCountedKeys | hkdiscuss.py:44-66 | Reloading the written feed file gives back every key this run counted. |
| Ledger.WrittenHasKeys | hkdiscuss.py:58-61 | When every added entry is keyed by its non-empty title, reading the written file back loads every counted key. |
| Ledger.NextRunAfterWrite | hkdiscuss.py:161-162 | If the deployed copy covers the local file, the next run over the same listing writes nothing. That run's ledger is loaded from the deployed copy and the file just written. |
| Clock.NowInHongKong | hknet.py:157 | `datetime.now(HONG_KONG_TZ)` is aware and is the run's instant. |
| Clock.CivilFromDays | hkcard.py:95 | The calendar date of a day count is a valid date that maps back to the same day. |
| Clock.YearOfEra | hkcard.py:95 | A day of a 400-year era splits into a year of the era, from 0 to 399, and a day of that year, from 0 to 365, that add back up to it. |
| Clock.MonthOfYear | hkcard.py:95 | A day of a March-based year splits into a month from 0 to 11 and a day of the month from 1 to 31, with the days before that month adding back up to it. |
| Clock.RewriteZulu | hkdiscuss.py:126-127 | A trailing `Z` is replaced by `+00:00`. |
| Clock.RewriteCompactOffset | hkdiscuss.py:128-129 | `+HHMM` or `-HHMM` becomes `+HH:MM` or `-HH:MM`. |
| Clock.CompactRewriteSplits | hkdiscuss.py:128-129 | A string ending in `+` and four digits gains a colon between the offset's hours and minutes, and its prefix is kept. |
| Clock.ParseOffsetOf | hkdiscuss.py:131 | `+HH:MM` with HH ≤ 23 and MM ≤ 59 parses as an offset of HH hours and MM minutes. |
| Clock.CompactOffsetParses | hkdiscuss.py:128-131 | The colon form of a four-digit compact offset within range parses as that offset. |
| Clock.IsoParseWithOffset | hkdiscuss.py:131 | A naive date-time followed by a valid `±HH:MM` parses as the same wall time with that offset. |
| Clock.RewriteInsertsColon | hkdiscuss.py:128-129 | Any string holding `+` or `-` that does not end in `Z` gains one `:` before its last two characters, and nothing else changes. |
| Clock.RewriteZuluParses | hkdiscuss.py:126-131 | A date-time ending in `Z` parses as UTC after the rewrite. |
| Clock.RewriteCompactParses | hkdiscuss.py:128-131 | A date-time with a compact `+HHMM` offset parses, with that offset, after the rewrite. |
| Clock.RewriteDoublesColon | hkdiscuss.py:128-129 | An offset that already has its colon, `+HH:MM`, becomes `+HH::MM`. |
| Clock.DoubledColonUnparsable | hkdiscuss.py:131 | A string ending in `+HH::MM` is refused by `fromisoformat`. |
| Clock.ShortDoubledColonUnparsable | hkdiscuss.py:131 | With at most ten characters before a doubled-colon offset, `fromisoformat` refuses the string at the date or at the separator. |
| Clock.DateRefused | hkdiscuss.py:131 | A date with a dash out of place, or a non-digit in the month or day, is refused. |
| Clock.ClockRefused | hkdiscuss.py:131 | `HH:MM:SS` with a colon among the minute digits is refused. |
| Clock.OffsetRefused | hkdiscuss.py:131 | An offset that starts with a digit in place of its sign is refused. |
| Clock.RewriteBreaksColonOffset | hkdiscuss.py:128-131 | A date-time that already carries `+HH:MM` no longer parses after the rewrite. |
| Clock.RewriteBreaksNaive | hkdiscuss.py:128-131 | A naive date-time with minutes or seconds holds `-`, so the rewrite also changes it, and the result no longer parses. |
| Clock.RewriteCompactTimeStaysNaive | hkdiscuss.py:126-131 | The rewrite also fires on the `-` of a date without an offset: `…THHMM` becomes `…THH:MM` and parses as a naive time. |
| Clock.ParseTime | hkdiscuss.py:69-77 | `parse_time` always returns an aware time. |
| Clock.ParseTimeInstant | hkdiscuss.py:69-77 | A `title` that parses as `%Y-%m-%d %H:%M` is read at +08:00, so its instant is the wall time minus eight hours. Anything else gives the current UTC instant. |
| Clock.ParseTimeOf | hkdiscuss.py:69-77 | For a four-digit year, a month and day of one or two digits (or a day as a space and one digit), any run of whitespace and an `H:M` time: a real calendar date is read at +08:00, with an instant eight hours before its wall time. An impossible date such as 30 February falls back to the current UTC time. |
| Clock.ParseStampOf | hkdiscuss.py:73 | `strptime` with `%Y-%m-%d %H:%M` accepts exactly those field shapes. It gives the naive minute of the date and time when the date exists, and refuses the string otherwise. |
| Clock.ParseMonthOnOf | hkdiscuss.py:73 | A valid month field followed by `-` hands the rest of the string to the day field. |
| Clock.ParseDayOnOf | hkdiscuss.py:73 | A valid day field, whitespace and a time are read as that day at that time. |
| Clock.DayRun | hkdiscuss.py:73 | The day field ends where the whitespace that follows it starts. |
| Clock.HourMinuteStartsWithDigit | hkdiscuss.py:73 | An accepted time starts with a digit, so it cannot extend the whitespace before it. |
| Clock.ParseStampUnpadded | hkdiscuss.py:73 | `2024-5-1 9:05` and `2024-05-01 09:05` are read as the same minute. |
| Clock.StampUnpadded | hkdiscuss.py:73 | `2024-5-1 9:05` is read as 9:05 on 1 May 2024. |
| Clock.StampPadded | hkdiscuss.py:73 | `2024-05-01 09:05` is read as 9:05 on 1 May 2024. |
| Clock.FieldsUnpadded | hkdiscuss.py:73 | The one-digit fields `5`, `1` and `9:05` are accepted as month, day and time. |
| Clock.FieldsPadded | hkdiscuss.py:73 | The zero-padded fields `05`, `01` and `09:05` are accepted with the same values. |
| Clock.ParseStamp | hkdiscuss.py:73 | A parsed stamp is naive and falls on a whole minute. |
| Clock.ParseMonthOn | hkdiscuss.py:73 | Whatever the month, day and time fields give is naive and falls on a whole minute. |
| Clock.ParseDayOn | hkdiscuss.py:73 | Whatever the day and time fields give is naive and falls on a whole minute. |
| Clock.StampOf | hkdiscuss.py:73 | A date-time built from the fields is naive and falls on a whole minute. |
| Clock.HourMinute | hknet.py:166 | A time that parses as `%H:%M` has an hour from 0 to 23 and a minute from 0 to 59. |
| Clock.HourMinutePadded | hknet.py:166 | A zero-padded `HH:MM` within range is accepted and read as written. |
| Clock.HourMinuteRefuses24 | hknet.py:166 | `24:00` is refused. |
| Clock.TodayAt | hknet.py:167 | Combining today's date with a time gives a value at Hong Kong's offset. |
| Clock.TodayAtSameDay | hknet.py:165-167 | The combined value falls on the current Hong Kong day at exactly the given hour and minute. |
| Clock.LeadingRun | hkcard.py:35 | The run of digits or spaces at the start of a string is maximal. |
| Clock.LeadingRunOf | hkcard.py:35 | A run of digits, or of spaces, followed by a character outside that class is matched whole. |
| Clock.MatchUnitAfterNumber | hkcard.py:35-37 | For digits, then spaces, then a tail that starts with neither, the pattern for a unit matches exactly when the tail starts with the unit, and the group is the number. |
| Clock.ConvertFromNone | hkcard.py:34-39 | The loop over the units finds no time exactly when no unit matches. |
| Clock.ConvertFromSome | hkcard.py:24-39 | When some unit matches, the result comes from the first unit that matches: now minus the number times that unit. That is an OverflowError when it falls before 1 January of year 1. |
| Clock.ConvertFromBefore | hkcard.py:25-37 | With positive units, a converted time is naive, not before year 1, never after now, and strictly before now when the number is positive. |
| Clock.RelativeTimeFirstMatch | hkcard.py:24-39 | `convert_relative_time` returns now − N×unit for the first unit that matches, or raises OverflowError when that is before year 1. It returns None when no unit matches. |
| Clock.RelativeTimeNotAfterNow | hkcard.py:25-37 | A converted time is naive, not before year 1 and never after now. It is strictly before now when N > 0. |
| Clock.ThreeHoursAgo | hkcard.py:27 | "3小時前" is exactly three hours before now, or an OverflowError when that is before year 1. |
| Clock.HoursMatch | hkcard.py:25-37 | A stamp that matches neither seconds nor minutes but matches hours gives now minus that many hours, or the overflow. |
| Clock.ConvertFromSkips | hkcard.py:34-37 | Units that do not match can be dropped from the front of the loop without changing its result. |
| Clock.FarPastOverflows | hkcard.py:25-37 | "20000年前" always raises OverflowError: 20000 × 365 days before any representable time is before year 1. |
| Clock.FarPastMatches | hkcard.py:30-37 | "20000年前" is converted with the year unit: now minus 20000 × 365 days, or the overflow. |
| Clock.YearStampMatches | hkcard.py:34-36 | "20000年前" matches the year pattern with the group 20000, and none of the five patterns tried before it. |
| Clock.WallRange | hkcard.py:30 | `datetime.min` and `datetime.max` lie less than 20000 × 365 days apart. |
| Clock.Localize | hkcard.py:92-93 | Localising keeps the wall time. A naive value gets +08:00, and an aware value or None is left unchanged. |
| Clock.LocalizeOnce | hkcard.py:92-93 | Localising an already localised value changes nothing. |
| Markup.Get | hknet.py:33 | An attribute is found exactly when the element has an attribute with that name. |
| Markup.Set | hknet.py:35-37 | After an attribute is set it holds the new value, and every other attribute is unchanged. |
| Markup.RewriteImageAttributes | hknet.py:32-37 | A non-empty `data-src` becomes `src`; otherwise `src` keeps its value. When either value is non-empty, `style` is set and `alt` is kept, or set to "" when absent. No other attribute changes, and an image with neither value is untouched. |
| Markup.RewriteStyledImage | hknet.py:32-37 | An image with a non-empty source gets that `src`, the style, and its own `alt` or an empty one. Every other attribute is unchanged. |
| Markup.RewriteImagesStyles | hknet.py:32-37 | After the rewrite, every image with a non-empty `src` carries the style and an `alt`. |
| Markup.RewriteImagesKeepsShape | hknet.py:32-37 | The image rewrite changes image attributes only. It keeps every text node, tag, non-image attribute list and child count, so the visible text is unchanged and no noise element appears. |
| Markup.RewriteImagesSameShape | hknet.py:32-37 | The rewritten tree has the same shape as the original. |
| Markup.SameShapeText | hknet.py:32-37 | Two trees of the same shape show the same `get_text(strip=True)`. |
| Markup.SameShapeTextAll | hknet.py:32-37 | Two child lists that match pairwise in shape show the same text. |
| Markup.SameShapeClean | hknet.py:32-37 | A tree shaped like one without noise elements has none either. |
| Markup.RemoveNoiseAll | hknet.py:40-41 | Removing noise never adds a child. |
| Markup.RemoveNoiseClears | hknet.py:40-41 | After removal, no script, style, iframe or noscript descendant remains. The element's own tag and attributes are kept. |
| Markup.RemoveNoiseAllClears | hknet.py:40-41 | No kept child is noise or holds noise. |
| Markup.RemoveNoiseKeepsClean | hknet.py:40-41 | A tree without noise is left unchanged. |
| Markup.RemoveNoiseAllKeepsClean | hknet.py:40-41 | Children without noise are left unchanged. |
| Markup.RemoveNoiseKeepsStyled | hknet.py:40-41 | Removing noise keeps every image styled. |
| Markup.RemoveNoiseAllKeepsStyled | hknet.py:40-41 | Removing noise keeps every child's images styled. |
| Markup.PruneAll | hknet.py:44-46 | Pruning never adds a child. |
| Markup.PruneKeepsText | hknet.py:44-46 | Pruning empty paragraphs never changes the visible text. |
| Markup.PruneAllKeepsText | hknet.py:44-46 | Pruning a list of children never changes their visible text. |
| Markup.PruneClears | hknet.py:44-46 | After pruning, no paragraph without visible text remains. |
| Markup.PruneAllClears | hknet.py:44-46 | No kept child is, or holds, a paragraph without visible text. |
| Markup.PruneKeeps | hknet.py:44-46 | Pruning keeps a tree free of noise and keeps its images styled, its tag and its attributes. |
| Markup.PruneAllKeeps | hknet.py:44-46 | Pruning keeps children free of noise and keeps their images styled. |
| Markup.PruneKeepsClean | hknet.py:44-46 | A tree with no paragraph lacking text is unchanged by pruning, so only textless paragraphs are ever removed. |
| Markup.PruneAllKeepsClean | hknet.py:44-46 | A child list with no textless paragraph is unchanged by pruning. |
| Markup.CleanGuarantees | hknet.py:32-46 | The cleaned container keeps its tag and attributes. It holds no noise descendant and no paragraph without visible text, and every image with a source is styled. |
| Markup.CleanKeepsText | hknet.py:32-46 | Cleaning a container without noise keeps its visible text, both relative to the rewritten images and relative to the container itself. |
| Markup.ImageOnlyParagraphRemoved | hknet.py:44-46 | A paragraph holding only an image has no visible text, so it is removed together with that image. |
| HkDiscuss.DescriptionLayout | hkdiscuss.py:14-41 | The description is the post markup, preceded by `<p>Published on: D</p>` and `<br>` exactly when the date D is non-empty. It is missing, together with the date, exactly when the page is unreachable, has no post, or has a meta tag without `content`. |
| HkDiscuss.Candidates | hkdiscuss.py:102 | The listing yields one candidate per item, in order. |
| HkDiscuss.AcceptThread | hkdiscuss.py:117-158 | For an item with a title and an unknown key, the code from the detail fetch to the counter gives the item's outcome. A date without an offset raises at `entry.published`. |
| HkDiscuss.WalkListing | hkdiscuss.py:102-159 | The loop over the listing, with its early return on an exception, gives exactly the walk over the listing's candidates from the loaded keys. |
| HkDiscuss.ListingStep | hkdiscuss.py:102-159 | Visiting the next item extends the walk by that item's step. An exception ends the whole walk with it. |
| HkDiscuss.VisitThread | hkdiscuss.py:104-159 | One pass of the loop body is exactly one step of the walk over the item's candidate. |
| HkDiscuss.FetchFeed | hkdiscuss.py:80-165 | A failed listing fetch returns early. Otherwise the loop is the walk over the listing's candidates from the keys loaded from both paths. The feed is written exactly when an entry was counted. |
| HkDiscuss.CandidatesKeyedByTitle | hkdiscuss.py:113 | Every keyed candidate's key is the `strip().lower()` of its entry's title. |
| HkDiscuss.ClassifyKeyedByTitle | hkdiscuss.py:113-143 | An item that reaches `add_entry` is keyed by the `strip().lower()` of its entry's non-empty title. |
| HkDiscuss.ItemSkipped | hkdiscuss.py:104-134 | An item is passed over exactly when one of these holds: it has no link, its title is empty, its key is already known, or its detail page gives no description or no publication date. |
| HkDiscuss.AcceptDrops | hkdiscuss.py:117-134 | A titled item is dropped before `add_entry` exactly when it has an `href` and its detail page gives no description or no publication date. |
| HkDiscuss.AcceptNaiveCrashes | hkdiscuss.py:124-145 | A titled item stops the run at `entry.published` exactly when it has an `href`, both fields, and a date that reads without an offset after the rewrite. |
| HkDiscuss.MissingHrefCrashes | hkdiscuss.py:117 | A new item whose link has no `href` stops the run. |
| HkDiscuss.EmittedBuilt | hkdiscuss.py:117-151 | The entry added for an item links to the item's resolved `href`, has the item's link text as its title and the item's author as its author, and its id is the title's digest. Its published and updated times are both the rewritten and parsed date, which carries an offset. Its content is the sanitized description, and it counts exactly when its URL is non-empty. |
| HkDiscuss.AddedEntries | hkdiscuss.py:117-159 | Every entry that a finished run added was built in that way from some item of the listing. |
| HkNet.DescriptionLayout | hknet.py:15-72 | The description exists exactly when the page was fetched, has the content container and has no malformed JSON-LD. It returns the JSON-LD `datePublished` P and `dateModified` U. Its content is the cleaned container, preceded by `<p>Published on: P Updated on: U</p>` exactly when P is non-empty; a missing U prints as "None". |
| HkNet.ListingTime | hknet.py:156-170 | An item's publication time is always at Hong Kong's offset. |
| HkNet.ListingTimeRule | hknet.py:156-170 | A time tag that parses as `HH:MM` gives that time on the current Hong Kong day. Any other tag, or no tag, leaves the time at now. |
| HkNet.ListingDates | hknet.py:156-170 | The loop computes equal published and updated times, and they are the listing time of the item's tag. |
| HkNet.Candidates | hknet.py:139 | The listing yields one candidate per item, in order. |
| HkNet.AcceptThread | hknet.py:154-200 | For an item with a link, a title and an unknown key, the code from `urljoin` to the counter gives the item's outcome. |
| HkNet.WalkListing | hknet.py:139-200 | The loop over the listing, with its early return on an exception, gives exactly the walk over the listing's candidates from the loaded keys. |
| HkNet.VisitThread | hknet.py:141-200 | One pass of the loop body is exactly one step of the walk over the item's candidate. |
| HkNet.FetchFeed | hknet.py:111-206 | A failed listing fetch returns early. Otherwise the loop is the walk from the loaded keys, and the feed is written exactly when an entry was counted. |
| HkNet.CandidatesKeyedByTitle | hknet.py:150 | Every keyed candidate's key is the `strip().lower()` of its entry's title. |
| HkNet.ClassifyKeyedByTitle | hknet.py:145-182 | An item that reaches `add_entry` is keyed by the `strip().lower()` of its entry's non-empty title. |
| HkNet.ItemWithoutTimeSkipped | hknet.py:172-173 | A new item with an `href` is passed over exactly when it has no time tag or the feed title is empty. |
| HkNet.EmptyFeedTitleWritesNothing | hknet.py:172-173 | With an empty feed title, a run adds no entry and writes nothing. |
| HkNet.AddedEntries | hknet.py:175-199 | Every added entry is built from some listing item: its link is that item's resolved URL and also its id, its title is the item's link text, its author is the item's author, and its published and updated times are the item's listing time. Its content is the detail after two newlines, or empty, and it counts exactly when its URL is non-empty. |
| HkNet.EmittedBuilt | hknet.py:175-199 | An item that reaches `add_entry` has an entry whose link is the item's resolved `href`, whose title is the item's link text, whose author is the item's author, and whose published and updated times are the listing time of the item's own time tag. The content is the detail after two newlines, or empty, and the entry counts exactly when the URL is non-empty. |
| HkCard.LastStamp | hkcard.py:75-87 | After the reply loop, `timestamp` is bound exactly when some reply has both a view root and a create time. |
| HkCard.LastComplete | hkcard.py:75-84 | The index of the last reply with both parts, or −1 when there is none: that reply is complete and no later reply is. |
| HkCard.LastBlock | hkcard.py:75-95 | When `timestamp` is bound, the last block collected and the stamp both come from the last complete reply. |
| HkCard.Reversed | hkcard.py:95 | `reversed` keeps the length and puts element i at position n−1−i. |
| HkCard.ThreadDescription | hkcard.py:42-103 | A page without the dropdown or the "最後回覆" option gives no description. An unbound `timestamp` raises, and so does a stamp before year 1. A description starts with its `<p>Published on: T</p><br>` line and is never empty. |
| HkCard.GetThreadDescription | hkcard.py:72-97 | The reply loop and the assembly give exactly that description. |
| HkCard.BlocksAppend | hkcard.py:72-81 | Reply blocks are collected in page order. |
| HkCard.BlocksMembership | hkcard.py:75-84 | There is a block exactly for each reply that has both a view root and a create time. Replies missing either part are skipped. |
| HkCard.NewestReplyFirst | hkcard.py:80-95 | The first block shown belongs to the last complete reply on the page, and the "Published on" time comes from that same reply. |
| HkCard.DescriptionFailures | hkcard.py:72-97 | The description raises on the unbound `timestamp` exactly when no reply is complete. It raises OverflowError exactly when the newest complete stamp reaches back before year 1. It raises nothing else. |
| HkCard.ExactTimeInPast | hkcard.py:86-93 | The exact time is None exactly when the stamp is empty or matches no unit. It overflows exactly when a non-empty stamp reaches before year 1. Otherwise it is at +08:00, not before year 1 and no later than now. |
| HkCard.Eligible | hkcard.py:142-158 | A thread is taken only when it has an `href` containing "forum", its resolved URL is not excluded, and it has a title span. |
| HkCard.ClassifyThread | hkcard.py:142-168 | The code from the link checks to the description gives the thread's outcome. |
| HkCard.ClassifyEligible | hkcard.py:142-158 | A thread is skipped exactly when it is not eligible. Otherwise its outcome carries its eligible URL and its title span. |
| HkCard.Outcomes | hkcard.py:137 | The listing yields one outcome per thread. |
| HkCard.PicksOfTracking | hkcard.py:142-158 | Outcomes that each track their thread carry, in order, the URLs and titles of the listing's eligible threads. |
| HkCard.PicksOfOutcomes | hkcard.py:142-158 | The URLs and titles carried by the listing's outcomes are those of its eligible threads, in order. |
| HkCard.EligiblePicks | hkcard.py:142-158 | No eligible URL is one of the excluded URLs. |
| HkCard.VisitThread | hkcard.py:142-181 | One pass of the loop body is exactly one visit. |
| HkCard.FetchFeed | hkcard.py:137-183 | The loop with its cap `break` is the capped walk. `atom_file` then refuses a run with an untitled entry. The feed is written exactly when no exception escapes. |
| HkCard.Take | hkcard.py:139-140 | Taking n items keeps min(n, length) of them, and none when n ≤ 0. |
| HkCard.TakeCons | hkcard.py:139-140 | Taking n ≥ 1 items of a list takes its head and n−1 items of its tail. |
| HkCard.TakeNext | hkcard.py:137-181 | A skipped thread contributes no entry. A visited one contributes its URL and title and uses up one place under the cap. |
| HkCard.StepPicks | hkcard.py:142-181 | A finished visit of a skipped thread changes nothing. Otherwise it adds one entry linking to the thread's URL under its title, and raises the counter. |
| HkCard.WalkTakesFirst | hkcard.py:137-181 | From any state under the cap, the added entries link, in order, to the next eligible threads under their titles, as many as the cap still allows. |
| HkCard.RunTakesFirstEligible | hkcard.py:137-181 | A finished run has at most 15 entries. Their links and titles are those of the first eligible threads of the listing, up to 15 of them, and none is excluded. |
| HkCard.PublishNeedsTitles | hkcard.py:158-183 | A finished loop is written exactly when none of the first 15 eligible threads has an empty title span. Otherwise `atom_file` raises and nothing is written. |
| HkCard.WalkWellFormed | hkcard.py:173-179 | Each entry's id is its URL with the run's clock, and it has no author. Published equals updated at +08:00, and the content is empty or starts with a newline. |
| HkCard.ClassifyFresh | hkcard.py:161-168 | A described thread's content is the page's content after a newline, or empty when that content is empty. Its date is the page's exact time, or now in Hong Kong when there is none, and is at +08:00. |
| HkCard.StepWellFormed | hkcard.py:161-181 | A visit whose described date is at +08:00, with content empty or starting with a newline, keeps every entry well formed. |
| HkCard.RunWellFormed | hkcard.py:137-181 | Every entry of a finished run is well formed. |
| HkCard.StaleDateReused | hkcard.py:161-178 | A thread that gives no description reuses the previous entry's publication date with empty content. When there is no previous date, the run stops on the unbound variable. |
| HkCard.FreshDateSet | hkcard.py:161-178 | A thread that gives a description is added whatever the loop state. The new entry links to the thread, has its title and the page's content after a newline (or empty content), and is dated by the page's exact time or else now. That date becomes `entry_pub_date` for later threads. |
| HkCard.FirstUndescribedCrashes | hkcard.py:161-177 | If the first eligible thread gives no description, the run stops and writes nothing. |
| HkCard.WalkStaleFirst | hkcard.py:161-177 | If every thread before the first undescribed one is skipped and no date is set yet, the run stops on the unbound variable. |

## Left out

- HTTP requests, status codes and timeouts are left out. The listing is an `Option` of items, where None is a non-200 response, and each detail page is a function from URL to a page value.
- The Selenium browser, its `sleep` delays and the dropdown selection are left out. A card thread page is given already rendered, or as the case with no dropdown or no "最後回覆" option.
- BeautifulSoup parsing and CSS selection are left out. Items arrive as records of the optional fields that the selectors would find, with `get_text(strip=True)` already applied. It is not modelled that `get_text(strip=True)` strips each text piece separately.
- Attribute values that BeautifulSoup turns into lists, such as `class`, are left out. Attributes are plain strings.
- hknet's `get_thread_description` updates the parsed tree in place with `img[...] = ...` and `decompose()`. The model rewrites an immutable tree value instead, so aliasing between the container and the document is not captured. Comments and CDATA are not told apart from text. `str(container)` is the parameter `render`.
- `urljoin`, `hashlib.md5`, `json.loads` and the Unicode tables behind `isprintable` and `lower` are treated as opaque. `urljoin` is the parameter `resolve`, and an entry id records the title that is hashed rather than the digest itself. JSON-LD is either malformed or has two optional string dates. Non-string JSON values are not modelled. `isprintable` and per-character `lower` are fields of `Unicode`. Multi-character lower-casing is not modelled. Neither is the context-dependent Greek final sigma: CPython lowers a word-final `Σ` to `ς`, so `"ΑΣ".lower()` is `"ας"`, while a per-character map gives `"ασ"`. Two titles can therefore share a key in Python and not in the model, or the reverse.
- Writing the feed with feedgen, the feed's own header fields and the file-existence checks are left out. Two feedgen refusals are modelled: `entry.published` refuses a date without an offset (hkdiscuss), and `atom_file` refuses an entry with an empty title (hkcard). A feed file as read back is a list of optional titles, or missing, or unreadable.
- Each run reads one clock. Repeated calls to `datetime.now()` and `time.time()` within one run are taken to return the same instant, to the second. Microseconds are not modelled.
- The host's local zone is taken to be Hong Kong (+08:00). hknet's `astimezone` on a naive value and hkcard's naive `datetime.now()` depend on it.
- `datetime.fromisoformat` is modelled only on `YYYY-MM-DD[(T| )HH:MM[:SS][±HH:MM]]`. Fractions of a second, week dates and the other forms Python accepts are not modelled.
- hknet's `parse_time` is never called by its script, so it is not modelled. hkdiscuss's `parse_time` is modelled.
- `main`, `argparse`, the module-level `fetch_feed` calls and `print` logging are left out.
- hkdiscuss's commented-out three-hour window is left out.
- HkCard.RunWellFormed: entry ids are not shown to be distinct. The same URL listed twice in one run gives two entries with the same id, as in the source.
- Clock.ConvertFrom: `\d` and `int()` also accept non-ASCII decimal digits, such as full-width ones. The model reads only `0`-`9`, so a stamp with other digits counts as matching no unit. Clock.ConvertFromSome, Clock.RelativeTimeFirstMatch and HkCard.ExactTimeInPast share this limit.
- Clock.ConvertFrom: `int()` raises ValueError on more than 4300 digits, and `timedelta` raises OverflowError past 999999999 days. Both crash hkcard's run like the OverflowError the model reports. The model names every such stamp TimeOutOfRange.
- Clock.HourMinute: `%H:%M` also accepts non-ASCII decimal digits. The model reads only `0`-`9`, so hknet treats such a time as unparsable.
- Clock.ParseStamp: `strptime` also accepts non-ASCII decimal digits in every field. The model refuses them, so `parse_time` falls back to the current time. Case-insensitive matching does not matter for this format.
- Clock.Localize: `pytz` localises with Hong Kong's historical offsets, which include local mean time before 1904, summer time in some later years, and +09:00 in 1941-1945. The model always uses +08:00, so a relative stamp reaching back into such a period gets the wrong offset.
- HkNet.FetchFeed: `urljoin` with the non-empty listing URL never returns "", so an entry always has an id. `resolve` is an arbitrary function in the model, and feedgen's refusal of an entry whose id is empty is not modelled.
