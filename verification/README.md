# Cache channels: publisher and channel manager

A cache channel is an Atom feed of invalidation events. It lets a cache keep
responses fresh past their normal lifetime and mark them stale as soon as the
origin says they changed. The system has two halves, and this project models
the deterministic core of both. "Now" is a parameter throughout, and times are
integers.

- **Publisher (PHP).** It keeps a log of `(uri, time)` rows. It serves the log
  as a feed of fixed-width pages: a current page, and numbered archive pages,
  each linking to the page before it. It also garbage-collects rows older than
  the channel lifetime and parses its command line. Modules:
  - `Paging`: the page arithmetic of `show_channel`.
  - `EventLog`: the table as a class over a sequence of rows, with its SQL
    statements stated as functions.
  - `Publisher`: `show_channel`, `invalidate_uri`, `gc_db`, `main`'s dispatch
    and the time-zone step of the date helper.
  - `CliArgs`: `arguments`.
  - `Decimal`: PHP's integer text.
- **Channel manager (Python).** It is an external refresh-check helper for
  Squid. It monitors channels, merges their events into a table, walks back
  through archives, and answers each proxy request FRESH or STALE. Modules:
  - `Channels`: `ChannelManager` and `AtomChannel`, as classes updated in place.
  - `Headers`: `_unquotestring`, `parse_cc` and `parse_link`.
  - `Handler`: `SquidHandlerProtocol.process`.

The model follows the code, including where it behaves in ways a reader might
not expect:

- The page window is queried with SQL `BETWEEN` (`src/db_publish.php:180-183`),
  so it is closed at both ends (`[start, end]`). An event exactly at a page
  boundary appears on both neighbouring pages (`Paging.ArchivesAdjoin`).
- An archive page clamped to the start of the lifetime keeps the full width
  `page_frequency`. Its end is `start + page_frequency`, with the start already
  clamped, so the window is shifted, not narrowed.
- A negative page number is accepted as numeric and served as an archive page.
  PHP's `is_numeric` accepts a sign.
- The current page's `max-age` reads the configuration key `channel_frequency`,
  not `page_frequency`. The example configuration does not define that key, so
  the value is missing there (`Paging.ExampleCurrentPageMaxAge`).
- The configuration is never validated. The model needs only
  `page_frequency > 0`, for the divisions.
- The header comment (`src/db_publish.php:34`) calls `uri` and `event_time`
  together the primary key, but the table created at line 111 has none (the
  variant with the key, line 112, is commented out). The log may therefore
  hold duplicate rows, and the table is a sequence compared as a multiset.

## Model

| member | source | states |
|---|---|---|
| Paging.PhpMod | src/db_publish.php:149 | PHP's `%` truncates: `a == q*b + r` with `q` rounded toward zero, and `r` has the sign of `a` and magnitude below `b` |
| Paging.LifetimePage | src/db_publish.php:147-149 | `$lifetime_page` is the page number whose page contains the lifetime start, rounding toward zero for negative starts |
| Paging.CurrentWindow | src/db_publish.php:160-164 | the current window starts at a multiple of `pf` and contains `now`; it is exactly `pf` wide, not an archive, and the page before it is `start/pf - 1` |
| Paging.ArchiveWindow | src/db_publish.php:155-159 | archive page `n` starts at `max(n*pf, now - lifetime)`, never before the lifetime; it is exactly `pf` wide, an archive, and preceded by `n - 1` |
| Paging.PageHead | src/db_publish.php:151-173 | status 400 exactly for a truthy, non-numeric `page`; otherwise the page is an archive iff `page` is truthy (`""`, `"0"` and a missing page are not) |
| Paging.CurrentPage | src/db_publish.php:160-164 | a falsy page gives the current window around `now`, not an archive, with `max-age` taken from `channel_frequency` |
| Paging.ArchivePage | src/db_publish.php:155-159 | a numeric page gives the clamped archive window, preceded by `n - 1`, with `max-age` equal to the lifetime |
| Paging.PrevLinkIff | src/db_publish.php:168-173 | a prev-archive link exists iff the preceding page number is above both 0 and the lifetime page; it carries that number and the page frequency |
| Paging.FollowPrevLink | src/db_publish.php:155-158 | the page value written into a prev-archive link is truthy and numeric, and requesting it serves exactly that archive page |
| Paging.ArchivesAdjoin | src/db_publish.php:155-157 | inside the lifetime, archive page `n - 1` ends at the instant page `n` starts, so a boundary event is on both |
| Paging.MaxAge | src/db_publish.php:188-192 | the cache lifetime sent: `channel_lifetime` for an archive page, the `channel_frequency` setting (possibly missing) for the current page; `Paging.ArchivePage` and `Paging.CurrentPage` tie it to the page |
| Paging.ExampleCurrentPageMaxAge | src/db_publish.php:190-191 | with the example configuration the current page sends no `max-age` value |
| Decimal.IsInteger | src/db_publish.php:152 | `is_numeric` for integer text: an optional sign and at least one digit; `Decimal.TextRoundTrip` shows that every written page number passes it |
| Decimal.Text | src/db_publish.php:170 | PHP's integer interpolation writes integer text, with no sign for a non-negative number |
| Decimal.TextRoundTrip | src/db_publish.php:152 | the text written for an integer passes the numeric test and reads back as that integer |
| Decimal.PositiveTextNotZero | src/db_publish.php:155 | the text of a positive page number is truthy |
| EventLog.Select | src/db_publish.php:180-183 | a `WHERE` clause returns at most the stored rows, each satisfying the condition |
| EventLog.Within | src/db_publish.php:180-183 | every row the window query returns has `start <= t <= end`; `EventLog.WithinExactly` gives the count of each row |
| EventLog.Kept | src/db_publish.php:127 | every row left by the delete has `t >= cutoff`; `EventLog.KeptExactly` gives the count of each row |
| EventLog.SelectCount | src/db_publish.php:180-183 | a `WHERE` keeps every copy of an accepted row and no copy of a rejected one |
| EventLog.SelectTwice | src/db_publish.php:180-183 | filtering again with a weaker condition changes nothing |
| EventLog.SelectSnoc | src/db_publish.php:180-183 | filtering a log extended by one row is the old result plus that row, if accepted |
| EventLog.SelectAgree | src/db_publish.php:180-183 | conditions that agree on every row select the same rows |
| EventLog.SelectThen | src/db_publish.php:180-183 | filtering by `p` and then by `q` is filtering by `p && q` |
| EventLog.WithinExactly | src/db_publish.php:180-183 | the window query returns exactly the stored rows with `start <= t <= end`, both ends inclusive, with multiplicity |
| EventLog.KeptExactly | src/db_publish.php:127 | the delete removes exactly the rows with `t < cutoff` and keeps every other row, including one at the cutoff |
| EventLog.KeptIdempotent | src/db_publish.php:127 | deleting again at the same cutoff changes nothing |
| EventLog.KeptTwice | src/db_publish.php:123-127 | two collections are one collection at the later cutoff |
| EventLog.InsertByTime | src/db_publish.php:183 | inserting a row into a time-sorted sequence keeps it sorted and adds exactly that row |
| EventLog.SortByTime | src/db_publish.php:183 | `order by event_time` yields a time-sorted permutation of its input |
| EventLog.EventTable.constructor | src/db_publish.php:110-111 | a new table is empty |
| EventLog.EventTable.Insert | src/db_publish.php:136 | an insert appends one row stamped with the current time; nothing else changes |
| EventLog.EventTable.RangeQuery | src/db_publish.php:180-184 | the result is sorted by time and is, as a multiset, exactly the stored rows in the closed window |
| EventLog.EventTable.DeleteBefore | src/db_publish.php:127 | the table becomes the rows not older than the cutoff, in their order |
| Publisher.ShowChannel | src/db_publish.php:143-192 | fails with 400 exactly for a truthy non-numeric page; otherwise the head is the page arithmetic's, and the entries are the stored rows of the closed window in time order |
| Publisher.InvalidateUri | src/db_publish.php:133-139 | one row for the URI is appended at `now` |
| Publisher.GcDb | src/db_publish.php:119-130 | the table keeps exactly the rows not older than `now - channel_lifetime` |
| Publisher.GcAtLifetimeEdge | src/db_publish.php:123-127 | with the example lifetime, a row one second past the lifetime is gone and one a second inside it stays |
| Publisher.Dispatch | src/db_publish.php:255-274 | the web server serves the channel; on the command line `--init` beats `--gc`, which beats `--stale`, and otherwise the usage text is printed |
| Publisher.ColonOffset | src/db_publish.php:85 | the offset's first three characters, a colon, then the next two; `Publisher.ColonOffsetInserts` states the result |
| Publisher.ColonOffsetInserts | src/db_publish.php:85 | a `+HHMM` offset becomes `+HH:MM`: six characters, a colon at index 3, and nothing else changed |
| CliArgs.ParseArg | src/db_publish.php:239-248 | the key and value one argument contributes: the long form first, then the short form, else nothing; `CliArgs.LongFormParts` and `CliArgs.ShortFormParts` state them |
| CliArgs.ArgsOf | src/db_publish.php:236-253 | the dictionary after the arguments are handled in order; `CliArgs.LastArgumentWins` characterises it and `CliArgs.Arguments` is proved equal to it |
| CliArgs.SplitAt | src/db_publish.php:240 | `split` yields at least one piece |
| CliArgs.ConcatSnoc | src/db_publish.php:242-244 | appending one more piece in the loop extends the concatenation by that piece |
| CliArgs.ConcatSplit | src/db_publish.php:240-244 | joining all split pieces gives the text with every `=` removed |
| CliArgs.SplitParts | src/db_publish.php:240-244 | the first piece is the text before the first `=`; the rest joined is everything after it, with the `=` signs removed |
| CliArgs.Arguments | src/db_publish.php:236-253 | the loop builds exactly the dictionary of the arguments handled in order |
| CliArgs.LongFormParts | src/db_publish.php:239-245 | a `--name=` argument maps the `--`-free text before the first `=` to the rest without its `=` signs |
| CliArgs.ShortFormParts | src/db_publish.php:246-248 | any other argument with a dash before an alphanumeric maps its dash-free text to `'true'` |
| CliArgs.ExampleKeyValue | src/db_publish.php:239-245 | `--k=a=b` sets `k` to `ab` |
| CliArgs.LongFormAt | src/db_publish.php:239 | the unanchored pattern matches wherever `--`, alphanumerics and `=` occur in a row |
| CliArgs.LastArgumentWins | src/db_publish.php:238-249 | a key is present iff some argument sets it, and its value is the last such argument's; other arguments are ignored |
| Common.IndexOf | src/manager.py:392 | the split position is the first occurrence of the separator |
| Channels.WithChannel | src/manager.py:130-134 | a new URI gets a fresh `{'uri': uri}` entry and leaves the others alone; a known URI leaves the table unchanged |
| Channels.WithChannelIdempotent | src/manager.py:130-134 | adding a channel twice is adding it once |
| Channels.GcExactly | src/manager.py:175-182 | `_gc` keeps every channel and leaves those without a truthy lifetime untouched; elsewhere it deletes exactly the events with `v < now - lifetime` and keeps the rest unchanged |
| Channels.GcAll | src/manager.py:172-184 | the table after `_gc`; `Channels.GcExactly` says which events it deletes and `Channels.ChannelManager.Gc` is proved equal to it |
| Channels.GcTwice | src/manager.py:172-184 | collecting at `t1` and then at `t2`, in either order, is collecting once at the later of the two |
| Channels.ChannelManager.constructor | src/manager.py:102 | the table starts empty |
| Channels.ChannelManager.AddChannel | src/manager.py:130-134 | the table becomes the one with the channel added |
| Channels.ChannelManager.CheckDone | src/manager.py:147-150 | the checked channel is stored under its URI with `last_check = now`; nothing else changes |
| Channels.ChannelManager.Gc | src/manager.py:172-184 | the nested loop of deletes leaves exactly the collected table |
| Channels.Merge | src/manager.py:235-250 | the events after `add_events`; `Channels.MergeKeepsLatest` characterises them and `Channels.AtomChannel.AddEvents` is proved equal to them |
| Channels.MergeKeepsLatest | src/manager.py:235-250 | each URI's time is the largest of its previous time (0 when absent) and every supplied date, with a missing date read as `now`; a URI is present iff it was before or some supplied date for it is positive |
| Channels.MergeNeverLowers | src/manager.py:245-247 | merging never lowers a stored time and never drops a URI |
| Channels.Reverse | src/manager.py:253 | `reverse()` puts element `i` at position `n - 1 - i` |
| Channels.WalkSeen | src/manager.py:254-258 | `last_archive_seen` after the loop of `done`; `Channels.WalkSeenStops` gives its value in closed form |
| Channels.SeenPrefix | src/manager.py:254-258 | counts how many of the oldest requested archives were seen before the first one not seen |
| Channels.WalkSeenStops | src/manager.py:252-258 | the walk leaves `last_archive_seen` unchanged if the oldest request was not seen; otherwise it becomes the last archive of the longest seen prefix |
| Channels.ArchiveToFetch | src/manager.py:216-220 | an archive is fetched iff a non-empty `prev-archive` link exists and differs from `last_archive_seen`; the fetch is that link |
| Channels.AtomChannel.constructor | src/manager.py:188-196 | a check starts with no archives requested or seen |
| Channels.AtomChannel.AddEvents | src/manager.py:235-250 | the channel's events become the merge of the old events with the supplied ones; nothing else changes |
| Channels.AtomChannel.Done | src/manager.py:252-258 | the requests are reversed in place, and `last_archive_seen` becomes the walk's result over them |
| Channels.AtomChannel.CheckPrev | src/manager.py:216-227 | either the link is appended to the requests and returned for fetching, or nothing is fetched and `done`'s effect follows |
| Channels.AtomChannel.ProcessSubDoc | src/manager.py:205-258 | the whole new state: lifetime and precision are the document's values, or 604800 and 60 when missing or empty; the events are merged; then either the `prev-archive` link is appended to the requests and fetched, or the requests are reversed and `last_archive_seen` becomes the walk's result; the URI, `last_check` and the seen list are unchanged |
| Channels.AtomChannel.ProcessArchive | src/manager.py:216-258 | the whole new state: the events are merged, the archive is appended once to the seen list, then either the next link is requested and fetched, or the requests are reversed and `last_archive_seen` is the walk's result over a seen list that includes this archive |
| Headers.Lower | src/manager.py:397 | lower-casing maps each character to its ASCII lower case and keeps the length |
| Headers.LowerIdempotent | src/manager.py:397 | lower-casing a lower-cased key changes nothing |
| Headers.Unescape | src/manager.py:369 | `re.sub(r'\\(.)', r'\1', s)`: a backslash followed by any character but a newline stands for that character; `Headers.UnescapeEscape` and `Headers.UnescapeLength` state its properties |
| Headers.UnescapeEscape | src/manager.py:369 | removing escaping backslashes undoes escaping every `"` and backslash |
| Headers.Unquote | src/manager.py:366-370 | empty input raises; unquoted input is returned unchanged |
| Headers.UnquoteQuoted | src/manager.py:366-370 | unquoting a quoted, escaped string gives back the original string |
| Headers.MapAllSpec | src/manager.py:390-394 | parsing fails iff some piece fails; otherwise piece `i`'s result is in position `i` |
| Headers.AssocLastWins | src/manager.py:421 | in a dictionary filled left to right, a key is present iff some pair names it, and it holds the last value given |
| Headers.KeyOrderSpec | src/manager.py:424 | the order of a dictionary's keys lists each key once and nothing else |
| Headers.DirectiveAtFirstEquals | src/manager.py:392-397 | a directive splits at its first `=`, so the value may contain `=`; the key is lower-cased and the value unquoted, and an empty value raises |
| Headers.CollectByKey | src/manager.py:398-404 | a `force_list` key collects every value in order; any other key keeps the last value |
| Headers.ParseCc | src/manager.py:386-405 | the loop builds exactly the dictionary of the directives handled in order, or raises |
| Headers.CcFails | src/manager.py:392-393 | `parse_cc` raises exactly when some directive has `=` with nothing after it |
| Headers.CcByKey | src/manager.py:390-405 | a key is present iff some directive's lower-cased name is that key; keys are lower case; the value is the last directive's (`True` for a bare one) or, for a `force_list` key, all of them in order |
| Headers.CcSingle | src/manager.py:398-404 | without `force_list` keys, as `process` calls `parse_cc` (line 312), every value is a single directive, never a list |
| Headers.ParseParams | src/manager.py:417-423 | the inner loop builds exactly the parameter dictionary, or raises |
| Headers.ParseLink | src/manager.py:410-425 | the loops build exactly the link dictionary of the links handled in order, or raise |
| Headers.LinkTargetBetween | src/manager.py:415-416 | a link `<u>...` is keyed by `u`, the text between `<` and the first `>` |
| Headers.LinksByTarget | src/manager.py:414-424 | a URL is a key iff some link targets it, and its parameters are those of the last such link; the key order lists each key once |
| Headers.ParamsByName | src/manager.py:418-423 | parameter names are lower-cased, a bare parameter maps to `None`, and a repeated name keeps its last value |
| Handler.SplitFieldsShape | src/manager.py:310 | a line splits into at most five fields, each non-empty and not starting with white space |
| Handler.SplitFieldsWords | src/manager.py:310 | the first four fields hold no white space |
| Handler.Render | src/manager.py:315-316 | a raised exception writes nothing; every other outcome writes a line |
| Handler.ParseRequest | src/manager.py:309-315 | a parsed request has five fields, its id and URI are the first two, and its age is the integer value of the third |
| Handler.Respond | src/manager.py:308-315 | `process` on one line: parse, then decide; a malformed line is STALE under its first field, and a line without fields raises; `Handler.MalformedIff` and `Handler.AnswerPrefix` state this |
| Handler.Decide | src/manager.py:316-363 | every STALE or FRESH answer carries the request id; the `Handler.Stale…` lemmas below say which check decides each answer |
| Handler.ScanLinks | src/manager.py:339-348 | the loop over the links; `Handler.ScanLinksPass` and `Handler.ScanLinksInvalidated` state when it passes and when it answers STALE |
| Handler.ScanLinksPass | src/manager.py:339-348 | the link loop passes iff no link has a bare `rev`, and no link with `rev=invalidates` (any case) names a group with an event newer than the cached response |
| Handler.ScanLinksInvalidated | src/manager.py:339-348 | the link loop answers STALE iff some link with `rev=invalidates` (any case) names a group with an event newer than the cached response, and every link before it lets the answer through |
| Handler.StaleNoChannelMaxage | src/manager.py:317-319 | `no_channel_maxage` exactly when the header has no `channel-maxage` |
| Handler.StaleNoChannelAdvertised | src/manager.py:320-322 | `no_channel_advertised` exactly when `channel-maxage` is given and `channel` is not |
| Handler.StaleChannelNotMonitored | src/manager.py:323-328 | `channel_not_monitored` exactly when both are given, `channel` with a value, and the resolved channel is not in the table; the reason carries that channel |
| Handler.StaleChannelStartup | src/manager.py:329-330 | `channel_startup` exactly when the channel is monitored but has no `last_check` |
| Handler.StaleChannelDead | src/manager.py:331-333 | `channel_dead` exactly when the monitored channel has `last_check` and `precision` and `now > last_check + precision` |
| Handler.StaleInvalidatedRequestUri | src/manager.py:334-338 | `invalidated_request_uri` exactly when the channel is live and the request URI has an event newer than `now - age - 5` |
| Handler.StaleInvalidatedGroupUri | src/manager.py:339-348 | `invalidated_group_uri` exactly when the request URI is current and the first link that does not let the answer through invalidates a group with a newer event |
| Handler.StaleInvalidChannelMaxage | src/manager.py:349-353 | `invalid_channel_maxage` exactly when every earlier check passes and `channel-maxage` has a value that is not an integer |
| Handler.StaleChannelMaxage | src/manager.py:349-355 | `channel_maxage` exactly when every earlier check passes and the age exceeds an integer `channel-maxage` |
| Handler.StaleChannelLifetime | src/manager.py:356-357 | `channel_lifetime` exactly when every earlier check passes and the age exceeds the channel's lifetime |
| Handler.RaisesKeyError | src/manager.py:331-357 | `KeyError` escapes exactly when a checked channel has no `precision`, or when every check before the lifetime passes and it has no `lifetime` |
| Handler.FreshIffAdmissible | src/manager.py:317-363 | FRESH iff all of the following hold: `channel-maxage` and `channel` are given; the channel is monitored and checked within its precision; no request-URI or invalidated-group event is newer than `now - age - 5`; the age is within a numeric `channel-maxage`; and the age is within the lifetime |
| Handler.AnswerPrefix | src/manager.py:315-316 | every answer written starts with the line's first field and a space |
| Handler.MalformedIff | src/manager.py:309-315 | `malformed_line_error` is given exactly when the line has fields but fails to parse |
| Handler.NotMonitoredIsUnknown | src/manager.py:324-328 | `channel_not_monitored` names a channel absent from the table |
| Handler.SquidHandler.constructor | src/manager.py:294-295 | the handler shares the manager it is given |
| Handler.SquidHandler.Process | src/manager.py:308-363 | the answer is the decision on the line; for `channel_not_monitored` the channel is added to the table, and otherwise the table is unchanged |

## Left out

- MySQL: connecting, selecting the database, `init_db`, quoting and building SQL strings. The table is a sequence of rows, and its SQL statements are functions. A failed query's 500 answer and the undefined error callback in `gc_db` are not modelled.
- Rendering: the Atom document, `Header()` calls, and the exits of `problem`/`cli_problem` beyond their status code. The archive marker is the page's archive flag, and `max-age` is the head's `maxAge`.
- `get_iso_8601_date`: PHP `date()` is a library call. Only the step that inserts the colon into the offset is modelled.
- Paging.PageHead: `is_numeric` is read as an optional sign followed by digits. For other text PHP counts as numeric (leading white space such as `" 5"`, hexadecimal, fractions, exponents), the model answers 400 where PHP serves an archive page.
- Paging.PageHead: the MySQL `TIMESTAMP` range and time zone conversion of the window bounds are not modelled. Times are unbounded integers.
- EventLog.SortByTime: the order of rows with equal times is not fixed by SQL. The model keeps storage order, and the contracts claim only sortedness and the same multiset.
- Concurrency between the database, sweeps and requests is not modelled.
- Twisted: the reactor, `callLater` scheduling (`_schedule_check`, the re-armed `_gc`), `check`, `fetch` and its error callback, `_check_error`, `LineReceiver`, logging, PID files, configuration loading, and the start/shutdown file I/O of the channel list. A fetch that `check_prev` starts is returned to the caller instead.
- `parse_feed`: XML parsing and date parsing are libraries. A channel document is given as its `prev-archive` link, its lifetime and precision (already integers, or missing/empty), and its `(uri, date)` pairs.
- Channels.AtomChannel.ProcessSubDoc: a lifetime or precision text that `int()` rejects would raise. That path is not modelled.
- Floating point: `time.time()` is an integer. The retry wait of `_check_done`, `last_check_elapsed` and the `extend_by` fraction are left out.
- Handler.Render: the FRESH answer is `<id> FRESH` only. Its `freshness=`, date and log fields are floating-point and clock formatting.
- The regular-expression splitters (`param_splitter`, `link_splitter`, `_splitstring`), `urllib.unquote` and `urlparse.urljoin` are uninterpreted functions in `Handler.Env`. Their outputs are inputs to the parsers. `_splitstring`'s empty-text case is kept.
- Channels.Channel: a missing `events` key and an empty dictionary are the same value. A channel can have a lifetime but no `events` key only when `int()` rejects the precision on the channel's first check (`src/manager.py:207-210`), after the lifetime is stored and before `add_events` runs. That path is not modelled. On it the next `_gc` would raise `KeyError` at line 180 and never re-arm itself at line 184.
- Channels.AtomChannel: `AtomChannel` updates the same dictionary object the manager's table holds. In the model it holds a copy, and the manager stores it when `_check_done` runs.
- Headers.LinksByTarget: a Python 2 dictionary iterates in hash order. `parse_link`'s result is modelled with insertion order, which decides which link `process` reaches first when one link raises and another invalidates.
- Handler.ParseRequest: Python's `int()` is read as an optional sign followed by digits. White space inside a quoted `channel-maxage` and Python 2 long literals are not modelled.
