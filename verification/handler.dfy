/**
 * The proxy-facing side of the channel manager: each request line the proxy
 * sends is answered STALE (with the reason of the first check that fails) or
 * FRESH. The decision is a function of the line, the channel table and the
 * current time; its one side effect, starting to monitor an unknown channel,
 * is applied by `SquidHandler.Process`.
 */
module Handler {
  import opened Common
  import Decimal
  import opened Channels
  import opened Headers

  /** Library code the handler calls but that is not modelled: URL unquoting,
      the regular-expression splitters and URL resolution. */
  datatype Env = Env(
    unquote: string -> string,
    ccSplit: string -> seq<string>,
    linkSplit: string -> seq<string>,
    paramSplit: string -> seq<string>,
    urljoin: (string, string) -> string)

  /** Python 2 `str.split()` white space. */
  predicate IsSpace(c: char) {
    c == ' ' || c == '\t' || c == '\n' || c == '\r' || c as int == 11 || c as int == 12
  }

  function SkipSpace(s: string): (r: string)
    ensures |r| <= |s|
    ensures r == [] || !IsSpace(r[0])
    decreases |s|
  {
    if s != [] && IsSpace(s[0]) then SkipSpace(s[1..]) else s
  }

  function WordLength(s: string): (n: nat)
    ensures n <= |s| && (n == |s| || IsSpace(s[n]))
    ensures forall i :: 0 <= i < n ==> !IsSpace(s[i])
    decreases |s|
  {
    if s == [] || IsSpace(s[0]) then 0 else 1 + WordLength(s[1..])
  }

  /** `s.split(None, n)`: at most `n` splits at runs of white space; the
      remainder keeps its inner white space. */
  function SplitFields(s: string, n: nat): seq<string>
    decreases |s|
  {
    var t := SkipSpace(s);
    if t == [] then []
    else if n == 0 then [t]
    else
      var w := WordLength(t);
      [t[..w]] + SplitFields(t[w..], n - 1)
  }

  /** At most `n + 1` fields, none empty and none starting with white space. */
  lemma {:induction false} SplitFieldsShape(s: string, n: nat)
    ensures |SplitFields(s, n)| <= n + 1
    ensures forall i :: 0 <= i < |SplitFields(s, n)| ==>
              SplitFields(s, n)[i] != [] && !IsSpace(SplitFields(s, n)[i][0])
    decreases |s|
  {
    var t := SkipSpace(s);
    if t != [] && n != 0 {
      var w := WordLength(t);
      var rest := SplitFields(t[w..], n - 1);
      SplitFieldsShape(t[w..], n - 1);
      var fs := SplitFields(s, n);
      assert fs == [t[..w]] + rest;
      forall i | 0 <= i < |fs|
        ensures fs[i] != [] && !IsSpace(fs[i][0])
      {
        if i > 0 { assert fs[i] == rest[i - 1]; }
      }
    }
  }

  /** The first `n` fields hold no white space at all. */
  lemma {:induction false} SplitFieldsWords(s: string, n: nat, i: nat, j: nat)
    requires i < |SplitFields(s, n)| && i < n && j < |SplitFields(s, n)[i]|
    ensures !IsSpace(SplitFields(s, n)[i][j])
    decreases |s|
  {
    var t := SkipSpace(s);
    var w := WordLength(t);
    var rest := SplitFields(t[w..], n - 1);
    assert SplitFields(s, n) == [t[..w]] + rest;
    if i > 0 {
      SplitFieldsWords(t[w..], n - 1, i - 1, j);
    }
  }

  /** The check whose failure decides a STALE answer, in the order they run. */
  datatype Reason =
    | MalformedLine
    | NoChannelMaxage
    | NoChannelAdvertised
    | ChannelNotMonitored(uri: string)
    | ChannelStartup
    | ChannelDead
    | InvalidatedRequestUri
    | InvalidatedGroupUri
    | InvalidChannelMaxage
    | ChannelMaxage
    | ChannelLifetime

  function ReasonText(r: Reason): string {
    match r
    case MalformedLine => "malformed_line_error"
    case NoChannelMaxage => "no_channel_maxage"
    case NoChannelAdvertised => "no_channel_advertised"
    case ChannelNotMonitored(_) => "channel_not_monitored"
    case ChannelStartup => "channel_startup"
    case ChannelDead => "channel_dead"
    case InvalidatedRequestUri => "invalidated_request_uri"
    case InvalidatedGroupUri => "invalidated_group_uri"
    case InvalidChannelMaxage => "invalid_channel_maxage"
    case ChannelMaxage => "channel_maxage"
    case ChannelLifetime => "channel_lifetime"
  }

  /** A Python exception that escapes `process`; no answer is written. */
  datatype Failure =
    | IndexError      // a line without any field
    | AttributeError  // a bare `rev` link parameter, or a bare `channel` directive
    | KeyError        // a monitored channel without `precision` or `lifetime`

  datatype Outcome = Stale(reqId: string, reason: Reason) | Fresh(reqId: string) | Raised(error: Failure)

  /** The line in Squid's format: the request id, then the verdict. The FRESH
      answer's freshness extension, date and log fields are left out. */
  function Render(o: Outcome): (r: Option<string>)
    ensures r.None? <==> o.Raised?
  {
    match o
    case Stale(id, reason) => Some(id + " STALE log=" + ReasonText(reason))
    case Fresh(id) => Some(id + " FRESH")
    case Raised(_) => None
  }

  const ClockFuzz: int := 5

  /** The five fields of a well-formed line, with its headers parsed. `process`
      calls `parse_cc` without `force_list` keys, so each directive name has
      one value. */
  datatype Request = Request(reqId: string, requestUri: string, age: int,
                             cc: map<string, Directive>, links: LinkTable)

  /** `parse_cc` without `force_list` keys; an empty header gives an empty dictionary. */
  function CcText(env: Env, s: string): Option<map<string, Directive>> {
    if s == [] then Some(map[])
    else
      match CcOf(env.ccSplit(s), {})
      case None => None
      case Some(t) =>
        assert forall k :: k in t ==> t[k].One? by {
          forall k | k in t ensures t[k].One? {
            CcSingle(env.ccSplit(s), k);
          }
        }
        Some(map k | k in t :: t[k].d)
  }

  /** `_splitstring`: nothing for empty text. */
  function ParamSplitter(env: Env): string -> seq<string> {
    (s: string) => if s == [] then [] else env.paramSplit(s)
  }

  function LinkText(env: Env, s: string): Option<LinkTable> {
    if s == [] then Some(LinkTable([], map[])) else LinksOf(env.linkSplit(s), ParamSplitter(env))
  }

  /** The `try` block of `process`: five fields, an integer age and two
      headers that parse; any `IndexError` or `ValueError` is `None`. */
  function ParseRequest(env: Env, line: string): (r: Option<Request>)
    ensures r.Some? ==> var fs := SplitFields(line, 4);
      |fs| == 5 && r.value.reqId == fs[0] && r.value.requestUri == fs[1]
      && Decimal.IsInteger(fs[2]) && r.value.age == Decimal.Value(fs[2])
  {
    var fs := SplitFields(line, 4);
    if |fs| != 5 || !Decimal.IsInteger(fs[2]) then None
    else
      var cc := CcText(env, env.unquote(fs[3]));
      var links := LinkText(env, env.unquote(fs[4]));
      if cc.None? || links.None? then None
      else Some(Request(fs[0], fs[1], Decimal.Value(fs[2]), cc.value, links.value))
  }

  /** The parameters of the link to `url` (an ordered table lists only keys it has). */
  function ParamsFor(t: LinkTable, url: string): ParamTable {
    if url in t.entries then t.entries[url] else map[]
  }

  datatype LinkVerdict = Pass | Invalidated | RevError

  /** The loop over the links of `process`, from the `i`-th on: a link whose
      `rev` is `invalidates` (in any case) makes the answer STALE when the
      group it names has an event newer than the cached response; a bare
      `rev` raises. */
  function ScanLinks(env: Env, req: Request, events: map<string, int>, cached: int, i: nat): LinkVerdict
    decreases |req.links.order| - i
  {
    if i >= |req.links.order| then Pass
    else
      var url := req.links.order[i];
      var params := ParamsFor(req.links, url);
      if "rev" !in params then ScanLinks(env, req, events, cached, i + 1)
      else if params["rev"].None? then RevError
      else if Lower(params["rev"].value) != "invalidates" then ScanLinks(env, req, events, cached, i + 1)
      else
        var group := env.urljoin(req.requestUri, url);
        if group in events && events[group] > cached then Invalidated
        else ScanLinks(env, req, events, cached, i + 1)
  }

  /** The checks of `process` after parsing, in order. */
  function Decide(env: Env, channels: map<string, Channel>, now: int, req: Request): (o: Outcome)
    ensures o.Stale? ==> o.reqId == req.reqId
    ensures o.Fresh? ==> o.reqId == req.reqId
  {
    if "channel-maxage" !in req.cc then Stale(req.reqId, NoChannelMaxage)
    else if "channel" !in req.cc then Stale(req.reqId, NoChannelAdvertised)
    else if req.cc["channel"].Flag? then Raised(AttributeError)
    else
      var uri := env.urljoin(req.requestUri, req.cc["channel"].text);
      if uri !in channels then Stale(req.reqId, ChannelNotMonitored(uri))
      else
        var ch := channels[uri];
        if ch.lastCheck.None? then Stale(req.reqId, ChannelStartup)
        else if ch.precision.None? then Raised(KeyError)
        else if now > ch.lastCheck.value + ch.precision.value then Stale(req.reqId, ChannelDead)
        else
          var cached := now - req.age - ClockFuzz;
          if req.requestUri in ch.events && ch.events[req.requestUri] > cached then
            Stale(req.reqId, InvalidatedRequestUri)
          else
            match ScanLinks(env, req, ch.events, cached, 0)
            case RevError => Raised(AttributeError)
            case Invalidated => Stale(req.reqId, InvalidatedGroupUri)
            case Pass =>
              var maxAge := req.cc["channel-maxage"];
              if maxAge.Text? && !Decimal.IsInteger(maxAge.text) then Stale(req.reqId, InvalidChannelMaxage)
              else if maxAge.Text? && req.age > Decimal.Value(maxAge.text) then Stale(req.reqId, ChannelMaxage)
              else if ch.lifetime.None? then Raised(KeyError)
              else if req.age > ch.lifetime.value then Stale(req.reqId, ChannelLifetime)
              else Fresh(req.reqId)
  }

  /** `process`: a malformed line is answered STALE under its first field; a
      line without fields raises. */
  function Respond(env: Env, channels: map<string, Channel>, now: int, line: string): Outcome {
    match ParseRequest(env, line)
    case Some(req) => Decide(env, channels, now, req)
    case None =>
      var fs := SplitFields(line, 4);
      if fs == [] then Raised(IndexError) else Stale(fs[0], MalformedLine)
  }

  // ------------------------------------------------- the checks, stated one by one

  /** A link does not stand in the way of a FRESH answer. */
  predicate LinkAllows(env: Env, req: Request, events: map<string, int>, cached: int, url: string) {
    var params := ParamsFor(req.links, url);
    "rev" !in params
    || (params["rev"].Some?
        && (Lower(params["rev"].value) != "invalidates"
            || var group := env.urljoin(req.requestUri, url);
               !(group in events && events[group] > cached)))
  }

  /** A link with `rev=invalidates` (any case) whose group has an event newer
      than the cached response. */
  predicate InvalidatesGroup(env: Env, req: Request, events: map<string, int>, cached: int, url: string) {
    var params := ParamsFor(req.links, url);
    && "rev" in params && params["rev"].Some?
    && Lower(params["rev"].value) == "invalidates"
    && var group := env.urljoin(req.requestUri, url);
      group in events && events[group] > cached
  }

  /** A link with a bare `rev` parameter, whose `None` has no `lower`. */
  predicate BareRev(req: Request, url: string) {
    var params := ParamsFor(req.links, url);
    "rev" in params && params["rev"].None?
  }

  lemma {:induction false} ScanLinksPass(env: Env, req: Request, events: map<string, int>, cached: int, i: nat)
    ensures ScanLinks(env, req, events, cached, i) == Pass <==>
      forall j :: i <= j < |req.links.order| ==> LinkAllows(env, req, events, cached, req.links.order[j])
    decreases |req.links.order| - i
  {
    if i < |req.links.order| {
      ScanLinksPass(env, req, events, cached, i + 1);
    }
  }

  /** The loop stops with STALE exactly when, among the links from the `i`-th
      on, the first that does not let the answer through invalidates a group. */
  lemma {:induction false} ScanLinksInvalidated(env: Env, req: Request, events: map<string, int>, cached: int, i: nat)
    ensures ScanLinks(env, req, events, cached, i) == Invalidated <==>
      exists j :: i <= j < |req.links.order|
        && InvalidatesGroup(env, req, events, cached, req.links.order[j])
        && forall l :: i <= l < j ==> LinkAllows(env, req, events, cached, req.links.order[l])
    decreases |req.links.order| - i
  {
    if i < |req.links.order| {
      ScanLinksInvalidated(env, req, events, cached, i + 1);
      var order := req.links.order;
      if LinkAllows(env, req, events, cached, order[i]) {
        if exists j :: i + 1 <= j < |order|
             && InvalidatesGroup(env, req, events, cached, order[j])
             && forall l :: i + 1 <= l < j ==> LinkAllows(env, req, events, cached, order[l]) {
          var j :| i + 1 <= j < |order|
             && InvalidatesGroup(env, req, events, cached, order[j])
             && forall l :: i + 1 <= l < j ==> LinkAllows(env, req, events, cached, order[l]);
          assert forall l :: i <= l < j ==> LinkAllows(env, req, events, cached, order[l]);
        }
      } else {
        assert !InvalidatesGroup(env, req, events, cached, order[i]) ==> ScanLinks(env, req, events, cached, i) == RevError;
      }
    }
  }

  /** Both `channel-maxage` and `channel` are given, the latter with a value. */
  predicate Advertised(req: Request) {
    "channel-maxage" in req.cc && "channel" in req.cc && req.cc["channel"].Text?
  }

  /** The channel the request names, resolved against the request URI. */
  function ChannelUri(env: Env, req: Request): string
    requires Advertised(req)
  {
    env.urljoin(req.requestUri, req.cc["channel"].text)
  }

  predicate Monitored(env: Env, channels: map<string, Channel>, req: Request) {
    Advertised(req) && ChannelUri(env, req) in channels
  }

  /** The channel has been checked, and not longer ago than its precision. */
  predicate Live(env: Env, channels: map<string, Channel>, now: int, req: Request) {
    && Monitored(env, channels, req)
    && var ch := channels[ChannelUri(env, req)];
      ch.lastCheck.Some? && ch.precision.Some? && now <= ch.lastCheck.value + ch.precision.value
  }

  /** The time before which the cached response was made, allowing for clock skew. */
  function Cached(now: int, req: Request): int {
    now - req.age - ClockFuzz
  }

  /** The request URI has no event newer than the cached response. */
  predicate RequestUriCurrent(env: Env, channels: map<string, Channel>, now: int, req: Request) {
    && Live(env, channels, now, req)
    && var ch := channels[ChannelUri(env, req)];
      !(req.requestUri in ch.events && ch.events[req.requestUri] > Cached(now, req))
  }

  /** Neither the request URI nor any group its links name was invalidated
      after the response was cached, and no link has a bare `rev`. */
  predicate NotInvalidated(env: Env, channels: map<string, Channel>, now: int, req: Request) {
    && RequestUriCurrent(env, channels, now, req)
    && var ch := channels[ChannelUri(env, req)];
      forall j :: 0 <= j < |req.links.order| ==>
        LinkAllows(env, req, ch.events, Cached(now, req), req.links.order[j])
  }

  /** The age is within a numeric `channel-maxage`; a bare one sets no limit. */
  predicate WithinMaxage(env: Env, channels: map<string, Channel>, now: int, req: Request) {
    && NotInvalidated(env, channels, now, req)
    && var m := req.cc["channel-maxage"];
      m.Text? ==> Decimal.IsInteger(m.text) && req.age <= Decimal.Value(m.text)
  }

  /** Every condition a FRESH answer needs. */
  predicate Admissible(env: Env, channels: map<string, Channel>, now: int, req: Request) {
    && WithinMaxage(env, channels, now, req)
    && var ch := channels[ChannelUri(env, req)];
      ch.lifetime.Some? && req.age <= ch.lifetime.value
  }

  /** The answer is FRESH exactly when every check passes. */
  lemma FreshIffAdmissible(env: Env, channels: map<string, Channel>, now: int, req: Request)
    ensures Decide(env, channels, now, req).Fresh? <==> Admissible(env, channels, now, req)
  {
    if Advertised(req) && ChannelUri(env, req) in channels {
      ScanLinksPass(env, req, channels[ChannelUri(env, req)].events, Cached(now, req), 0);
    }
  }

  /** Each STALE reason is given exactly when its own check fails and every
      check before it passes. */
  lemma StaleNoChannelMaxage(env: Env, channels: map<string, Channel>, now: int, req: Request)
    ensures Decide(env, channels, now, req) == Stale(req.reqId, NoChannelMaxage)
        <==> "channel-maxage" !in req.cc
  {
  }

  lemma StaleNoChannelAdvertised(env: Env, channels: map<string, Channel>, now: int, req: Request)
    ensures Decide(env, channels, now, req) == Stale(req.reqId, NoChannelAdvertised)
        <==> "channel-maxage" in req.cc && "channel" !in req.cc
  {
  }

  lemma StaleChannelNotMonitored(env: Env, channels: map<string, Channel>, now: int, req: Request, u: string)
    ensures Decide(env, channels, now, req) == Stale(req.reqId, ChannelNotMonitored(u))
        <==> Advertised(req) && ChannelUri(env, req) !in channels && u == ChannelUri(env, req)
  {
  }

  lemma StaleChannelStartup(env: Env, channels: map<string, Channel>, now: int, req: Request)
    ensures Decide(env, channels, now, req) == Stale(req.reqId, ChannelStartup)
        <==> Monitored(env, channels, req) && channels[ChannelUri(env, req)].lastCheck.None?
  {
  }

  lemma StaleChannelDead(env: Env, channels: map<string, Channel>, now: int, req: Request)
    ensures Decide(env, channels, now, req) == Stale(req.reqId, ChannelDead)
        <==> && Monitored(env, channels, req)
             && var ch := channels[ChannelUri(env, req)];
               ch.lastCheck.Some? && ch.precision.Some? && now > ch.lastCheck.value + ch.precision.value
  {
  }

  lemma StaleInvalidatedRequestUri(env: Env, channels: map<string, Channel>, now: int, req: Request)
    ensures Decide(env, channels, now, req) == Stale(req.reqId, InvalidatedRequestUri)
        <==> Live(env, channels, now, req) && !RequestUriCurrent(env, channels, now, req)
  {
  }

  lemma StaleInvalidatedGroupUri(env: Env, channels: map<string, Channel>, now: int, req: Request)
    ensures Decide(env, channels, now, req) == Stale(req.reqId, InvalidatedGroupUri)
        <==> && RequestUriCurrent(env, channels, now, req)
             && var events, order := channels[ChannelUri(env, req)].events, req.links.order;
               exists j :: 0 <= j < |order|
                 && InvalidatesGroup(env, req, events, Cached(now, req), order[j])
                 && forall l :: 0 <= l < j ==> LinkAllows(env, req, events, Cached(now, req), order[l])
  {
    if Advertised(req) && ChannelUri(env, req) in channels {
      ScanLinksInvalidated(env, req, channels[ChannelUri(env, req)].events, Cached(now, req), 0);
    }
  }

  lemma StaleInvalidChannelMaxage(env: Env, channels: map<string, Channel>, now: int, req: Request)
    ensures Decide(env, channels, now, req) == Stale(req.reqId, InvalidChannelMaxage)
        <==> && NotInvalidated(env, channels, now, req)
             && req.cc["channel-maxage"].Text? && !Decimal.IsInteger(req.cc["channel-maxage"].text)
  {
    if Advertised(req) && ChannelUri(env, req) in channels {
      ScanLinksPass(env, req, channels[ChannelUri(env, req)].events, Cached(now, req), 0);
    }
  }

  lemma StaleChannelMaxage(env: Env, channels: map<string, Channel>, now: int, req: Request)
    ensures Decide(env, channels, now, req) == Stale(req.reqId, ChannelMaxage)
        <==> && NotInvalidated(env, channels, now, req)
             && var m := req.cc["channel-maxage"];
               m.Text? && Decimal.IsInteger(m.text) && req.age > Decimal.Value(m.text)
  {
    if Advertised(req) && ChannelUri(env, req) in channels {
      ScanLinksPass(env, req, channels[ChannelUri(env, req)].events, Cached(now, req), 0);
    }
  }

  lemma StaleChannelLifetime(env: Env, channels: map<string, Channel>, now: int, req: Request)
    ensures Decide(env, channels, now, req) == Stale(req.reqId, ChannelLifetime)
        <==> && WithinMaxage(env, channels, now, req)
             && var ch := channels[ChannelUri(env, req)];
               ch.lifetime.Some? && req.age > ch.lifetime.value
  {
    if Advertised(req) && ChannelUri(env, req) in channels {
      ScanLinksPass(env, req, channels[ChannelUri(env, req)].events, Cached(now, req), 0);
    }
  }

  /** A monitored channel missing `precision` or `lifetime` raises `KeyError`
      at the check that reads it. */
  lemma RaisesKeyError(env: Env, channels: map<string, Channel>, now: int, req: Request)
    ensures Decide(env, channels, now, req) == Raised(KeyError)
        <==> || (Monitored(env, channels, req)
                 && var ch := channels[ChannelUri(env, req)]; ch.lastCheck.Some? && ch.precision.None?)
             || (WithinMaxage(env, channels, now, req) && channels[ChannelUri(env, req)].lifetime.None?)
  {
    if Advertised(req) && ChannelUri(env, req) in channels {
      ScanLinksPass(env, req, channels[ChannelUri(env, req)].events, Cached(now, req), 0);
    }
  }

  /** Every answer written starts with the line's first field, the request id. */
  lemma AnswerPrefix(env: Env, channels: map<string, Channel>, now: int, line: string)
    ensures var r := Render(Respond(env, channels, now, line));
      r.Some? ==> var fs := SplitFields(line, 4);
        fs != [] && r.value[..|fs[0]| + 1] == fs[0] + " "
  {
  }

  /** A line is answered `malformed_line_error` exactly when it has fields but
      not five, or its age is not an integer, or a header fails to parse. */
  lemma MalformedIff(env: Env, channels: map<string, Channel>, now: int, line: string)
    ensures Respond(env, channels, now, line).Stale? && Respond(env, channels, now, line).reason == MalformedLine
      <==> SplitFields(line, 4) != [] && ParseRequest(env, line).None?
  {
  }

  /** STALE `channel_not_monitored` names a channel that is not in the table. */
  lemma NotMonitoredIsUnknown(env: Env, channels: map<string, Channel>, now: int, line: string)
    ensures var o := Respond(env, channels, now, line);
      o.Stale? && o.reason.ChannelNotMonitored? ==> o.reason.uri !in channels
  {
  }

  /** The request handler; it shares the manager's channel table. */
  class SquidHandler {
    const manager: ChannelManager

    constructor (manager: ChannelManager)
      ensures this.manager == manager
    {
      this.manager := manager;
    }

    /** `process`, with its one side effect: an unknown channel is added to the
        table; nothing else changes. */
    method Process(env: Env, line: string, now: int) returns (o: Outcome)
      modifies manager
      ensures o == Respond(env, old(manager.channels), now, line)
      ensures o.Stale? && o.reason.ChannelNotMonitored? ==>
                manager.channels == WithChannel(old(manager.channels), o.reason.uri)
      ensures !(o.Stale? && o.reason.ChannelNotMonitored?) ==> manager.channels == old(manager.channels)
    {
      o := Respond(env, manager.channels, now, line);
      if o.Stale? && o.reason.ChannelNotMonitored? {
        manager.AddChannel(o.reason.uri);
      }
    }
  }
}
