/**
 * The PHP publisher's operations over its event table: serving a page of the
 * channel, marking a URI stale, garbage collection, the choice among them
 * made by `main`, and the date helper's time-zone reformatting.
 */
module Publisher {
  import opened Common
  import Decimal
  import opened Paging
  import opened EventLog

  /** A served channel document: its head and its entries in order. The
      archive marker is `head.window.isArchive`. */
  datatype FeedPage = FeedPage(head: Head, events: seq<Row>)

  /** `show_channel`: validate the page parameter, compute the window, then
      read the window's events from the table (which is left unchanged). */
  method ShowChannel(conf: Conf, now: int, self: string, page: PageParam, table: EventTable)
    returns (r: Result<FeedPage, Problem>)
    requires conf.pageFrequency > 0
    ensures r.Err? <==> Truthy(page) && !Decimal.IsInteger(page.text)
    ensures r.Err? ==> r.error.status == 400
    ensures r.Ok? ==> r.value.head == PageHead(conf, now, self, page).value
    ensures r.Ok? ==> SortedByTime(r.value.events)
    ensures r.Ok? ==> (forall x :: multiset(r.value.events)[x] ==
                         if r.value.head.window.start <= x.time <= r.value.head.window.end
                         then multiset(table.rows)[x] else 0)
  {
    var head := PageHead(conf, now, self, page);
    if head.Err? {
      return Err(head.error);
    }
    var events := table.RangeQuery(head.value.window.start, head.value.window.end);
    r := Ok(FeedPage(head.value, events));
  }

  /** `invalidate_uri`: one new row for `uri` at the current time. */
  method InvalidateUri(table: EventTable, uri: string, now: int)
    modifies table
    ensures table.rows == old(table.rows) + [Row(uri, now)]
  {
    table.Insert(uri, now);
  }

  /** `gc_db`: delete every row older than the start of the channel lifetime. */
  method GcDb(conf: Conf, now: int, table: EventTable)
    modifies table
    ensures table.rows == Kept(old(table.rows), LifetimeStart(conf, now))
  {
    table.DeleteBefore(LifetimeStart(conf, now));
  }

  /** After a collection at `now`, a row one second older than the lifetime is
      gone and a row one second younger is still there. */
  lemma GcAtLifetimeEdge(rows: seq<Row>, conf: Conf, now: int, u: string, v: string)
    requires conf.lifetime == ExampleConf.lifetime
    requires Row(v, now - 604799) in rows
    ensures Row(u, now - 604801) !in Kept(rows, LifetimeStart(conf, now))
    ensures Row(v, now - 604799) in Kept(rows, LifetimeStart(conf, now))
  {
    var kept := Kept(rows, LifetimeStart(conf, now));
    KeptExactly(rows, LifetimeStart(conf, now), Row(u, now - 604801));
    KeptExactly(rows, LifetimeStart(conf, now), Row(v, now - 604799));
    assert Row(u, now - 604801) !in multiset(kept);
    assert Row(v, now - 604799) in multiset(kept);
  }

  /** What `main` does. */
  datatype Command = Serve | Init | Gc | Stale(uri: string) | Usage

  /** `main`: the web server serves the channel; on the command line `--init`
      wins over `--gc`, which wins over `--stale=...`; anything else prints usage. */
  function Dispatch(isCli: bool, args: map<string, string>): (c: Command)
    ensures !isCli <==> c == Serve
    ensures c.Init? <==> isCli && "init" in args
    ensures c.Gc? <==> isCli && "init" !in args && "gc" in args
    ensures c.Stale? <==> isCli && "init" !in args && "gc" !in args && "stale" in args
    ensures c.Stale? ==> c.uri == args["stale"]
  {
    if !isCli then Serve
    else if "init" in args then Init
    else if "gc" in args then Gc
    else if "stale" in args then Stale(args["stale"])
    else Usage
  }

  /** PHP's `substr($s, $start, $len)` for non-negative arguments. */
  function Substr(s: string, start: nat, len: nat): string {
    if start >= |s| then "" else if start + len >= |s| then s[start..] else s[start..start + len]
  }

  /** The offset step of `get_iso_8601_date`: `+HHMM` becomes `+HH:MM`. */
  function ColonOffset(offset: string): string {
    Substr(offset, 0, 3) + ":" + Substr(offset, 3, 2)
  }

  /** For a five-character offset, a colon is inserted after the hours and
      nothing else changes: removing it gives back the offset. */
  lemma ColonOffsetInserts(offset: string)
    requires |offset| == 5
    ensures var r := ColonOffset(offset);
      |r| == 6 && r[3] == ':' && r[..3] + r[4..] == offset
  {
    var r := ColonOffset(offset);
    assert r == offset[..3] + ":" + offset[3..];
    assert r[..3] == offset[..3] && r[4..] == offset[3..];
  }
}
