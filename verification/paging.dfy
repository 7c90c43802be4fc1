/**
 * The page arithmetic of `show_channel` in the PHP publisher: which time
 * window a request for the channel document covers, whether it is an
 * archive, which page precedes it, and how long caches may keep it.
 * "now" is a parameter; the integers are PHP integers on a 64-bit build
 * and are modelled as unbounded.
 */
module Paging {
  import opened Common
  import Decimal

  /** The configuration keys `show_channel` reads. `channel_frequency` is
      optional: the example configuration does not define it. */
  datatype Conf = Conf(lifetime: int, pageFrequency: int, channelFrequency: Option<int>)

  /** The values of the example configuration (precision 60 is not read here). */
  const ExampleConf: Conf := Conf(60 * 60 * 24 * 7, 60 * 15, None)

  /** The `page` query parameter: missing, or the text the client sent. */
  datatype PageParam = NoPage | PageText(text: string)

  /** An integer window and the page that precedes it. */
  datatype Window = Window(start: int, end: int, isArchive: bool, prevPage: int)

  /** Everything about the response that does not depend on stored events. */
  datatype Head = Head(window: Window, prevUri: Option<string>, maxAge: Option<int>)

  /** A call of `problem($code, $message)`. */
  datatype Problem = Problem(status: int, message: string)

  function Max(a: int, b: int): int { if a >= b then a else b }

  /** Integer division truncating toward zero, as PHP's `intdiv`. */
  function TruncQuot(a: int, b: int): int
    requires b > 0
  {
    if a >= 0 then a / b else -((-a) / b)
  }

  /** PHP's `%`: the remainder takes the sign of the dividend. */
  function PhpMod(a: int, b: int): (r: int)
    requires b > 0
    ensures a == TruncQuot(a, b) * b + r
    ensures a >= 0 ==> 0 <= r < b
    ensures a < 0 ==> -b < r <= 0
  {
    if a >= 0 then a % b else -((-a) % b)
  }

  /** Dividing an exact multiple gives back the factor. */
  lemma MultipleDiv(q: int, b: int)
    requires b > 0
    ensures (q * b) / b == q && (q * b) % b == 0
  {
    var d, m := (q * b) / b, (q * b) % b;
    assert q * b == d * b + m && 0 <= m < b;
    assert (q - d) * b == m;
    SmallMultiple(q - d, b);
  }

  lemma SmallMultiple(x: int, b: int)
    requires b > 0 && 0 <= x * b < b
    ensures x == 0
  {
    if x > 0 {
      MulAtLeast(x, b);
      assert false;
    } else if x < 0 {
      MulAtLeast(-x, b);
      assert false;
    }
  }

  lemma MulAtLeast(x: int, b: int)
    requires x >= 1 && b > 0
    ensures x * b >= b
  {
    assert x * b == (x - 1) * b + b;
  }

  /** PHP truthiness of the parameter: a missing one, `""` and `"0"` are false. */
  predicate Truthy(p: PageParam) {
    p.PageText? && p.text != "" && p.text != "0"
  }

  function LifetimeStart(conf: Conf, now: int): int {
    now - conf.lifetime
  }

  /** `$lifetime_page`: the page number holding the start of the lifetime,
      counted with PHP's truncating remainder. */
  function LifetimePage(conf: Conf, now: int): (lp: int)
    requires conf.pageFrequency > 0
    ensures var ls, pf := LifetimeStart(conf, now), conf.pageFrequency;
      (ls >= 0 ==> lp * pf <= ls < lp * pf + pf) && (ls < 0 ==> lp * pf - pf < ls <= lp * pf)
  {
    var ls, pf := LifetimeStart(conf, now), conf.pageFrequency;
    MultipleDiv(TruncQuot(ls, pf), pf);
    (ls - PhpMod(ls, pf)) / pf
  }

  /** The window of the current page, served when `page` is falsy. */
  function CurrentWindow(conf: Conf, now: int): (w: Window)
    requires conf.pageFrequency > 0
    ensures w.start % conf.pageFrequency == 0
    ensures now >= 0 ==> w.start <= now < w.start + conf.pageFrequency
    ensures now < 0 ==> w.start - conf.pageFrequency < now <= w.start
    ensures w.end - w.start == conf.pageFrequency
    ensures !w.isArchive
    ensures (w.prevPage + 1) * conf.pageFrequency == w.start
  {
    var pf := conf.pageFrequency;
    var start := now - PhpMod(now, pf);
    MultipleDiv(TruncQuot(now, pf), pf);
    Window(start, start + pf, false, start / pf - 1)
  }

  /** The window of archive page `n`, clamped to the start of the lifetime. */
  function ArchiveWindow(conf: Conf, now: int, n: int): (w: Window)
    requires conf.pageFrequency > 0
    ensures w.start >= LifetimeStart(conf, now) && w.start >= n * conf.pageFrequency
    ensures w.start == n * conf.pageFrequency || w.start == LifetimeStart(conf, now)
    ensures w.end - w.start == conf.pageFrequency
    ensures w.isArchive && w.prevPage == n - 1
  {
    var start := Max(n * conf.pageFrequency, LifetimeStart(conf, now));
    Window(start, start + conf.pageFrequency, true, n - 1)
  }

  /** The `prev-archive` link; the page frequency rides along as a nonce. */
  function PrevLink(self: string, prev: int, pf: int): string {
    self + "?page=" + Decimal.Text(prev) + "&amp;freq=" + Decimal.Text(pf)
  }

  /** The `max-age` of the response; `None` is what PHP prints for a missing key. */
  function MaxAge(conf: Conf, isArchive: bool): Option<int> {
    if isArchive then Some(conf.lifetime) else conf.channelFrequency
  }

  /** The request-independent part of `show_channel`, up to the database access. */
  function PageHead(conf: Conf, now: int, self: string, page: PageParam): (r: Result<Head, Problem>)
    requires conf.pageFrequency > 0
    ensures r.Err? <==> Truthy(page) && !Decimal.IsInteger(page.text)
    ensures r.Err? ==> r.error.status == 400
    ensures r.Ok? ==> (r.value.window.isArchive <==> Truthy(page))
  {
    if Truthy(page) && !Decimal.IsInteger(page.text) then
      Err(Problem(400, "Invalid page parameter (" + page.text + ")."))
    else
      var w := if Truthy(page) then ArchiveWindow(conf, now, Decimal.Value(page.text))
               else CurrentWindow(conf, now);
      var prevUri := if w.prevPage > Max(0, LifetimePage(conf, now))
                     then Some(PrevLink(self, w.prevPage, conf.pageFrequency)) else None;
      Ok(Head(w, prevUri, MaxAge(conf, w.isArchive)))
  }

  /** A falsy page (missing, `""` or `"0"`) is the current page: a multiple of
      the page frequency that contains `now`, exactly one page wide. */
  lemma CurrentPage(conf: Conf, now: int, self: string, page: PageParam)
    requires conf.pageFrequency > 0 && now >= 0 && !Truthy(page)
    ensures var r := PageHead(conf, now, self, page);
      && r.Ok?
      && r.value.window.start % conf.pageFrequency == 0
      && r.value.window.start <= now < r.value.window.end
      && r.value.window.end == r.value.window.start + conf.pageFrequency
      && !r.value.window.isArchive
      && r.value.maxAge == conf.channelFrequency
  {
  }

  /** A numeric page `n` is an archive starting at `max(n * pf, now - lifetime)`,
      never before the lifetime, exactly one page wide, cached for the lifetime. */
  lemma ArchivePage(conf: Conf, now: int, self: string, page: PageParam)
    requires conf.pageFrequency > 0 && Truthy(page) && Decimal.IsInteger(page.text)
    ensures var r, n := PageHead(conf, now, self, page), Decimal.Value(page.text);
      && r.Ok?
      && r.value.window.start == Max(n * conf.pageFrequency, LifetimeStart(conf, now))
      && r.value.window.start >= LifetimeStart(conf, now)
      && r.value.window.end == r.value.window.start + conf.pageFrequency
      && r.value.window.isArchive
      && r.value.window.prevPage == n - 1
      && r.value.maxAge == Some(conf.lifetime)
  {
  }

  /** The link to the preceding archive exists iff the preceding page number
      exceeds both 0 and the lifetime's page; it names that page and the frequency. */
  lemma PrevLinkIff(conf: Conf, now: int, self: string, page: PageParam)
    requires conf.pageFrequency > 0
    requires PageHead(conf, now, self, page).Ok?
    ensures var h := PageHead(conf, now, self, page).value;
      && (h.prevUri.Some? <==> h.window.prevPage > 0 && h.window.prevPage > LifetimePage(conf, now))
      && (h.prevUri.Some? ==> h.prevUri.value == PrevLink(self, h.window.prevPage, conf.pageFrequency))
  {
  }

  /** Following a `prev-archive` link: its `page` value is truthy and numeric,
      reads back as the preceding page number, and selects that archive. */
  lemma FollowPrevLink(conf: Conf, now: int, self: string, page: PageParam, later: int)
    requires conf.pageFrequency > 0
    requires PageHead(conf, now, self, page).Ok?
    requires PageHead(conf, now, self, page).value.prevUri.Some?
    ensures var prev := PageHead(conf, now, self, page).value.window.prevPage;
      var r := PageHead(conf, later, self, PageText(Decimal.Text(prev)));
      && Truthy(PageText(Decimal.Text(prev)))
      && r.Ok?
      && r.value.window == ArchiveWindow(conf, later, prev)
  {
    var prev := PageHead(conf, now, self, page).value.window.prevPage;
    Decimal.TextRoundTrip(prev);
    Decimal.PositiveTextNotZero(prev);
  }

  /** Two consecutive archive pages inside the lifetime share their boundary
      instant: the end of page `n - 1` is the start of page `n`. */
  lemma ArchivesAdjoin(conf: Conf, now: int, n: int)
    requires conf.pageFrequency > 0
    requires (n - 1) * conf.pageFrequency >= LifetimeStart(conf, now)
    ensures ArchiveWindow(conf, now, n - 1).end == ArchiveWindow(conf, now, n).start
  {
    assert n * conf.pageFrequency == (n - 1) * conf.pageFrequency + conf.pageFrequency;
  }

  /** With the example configuration the current page does not name a cache
      lifetime: `channel_frequency` is not among its keys. */
  lemma ExampleCurrentPageMaxAge(now: int, self: string)
    ensures PageHead(ExampleConf, now, self, NoPage).Ok?
    ensures PageHead(ExampleConf, now, self, NoPage).value.maxAge == None
  {
  }
}
