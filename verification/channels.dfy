/**
 * The channel manager's state: the table of monitored channels, the events
 * each one has seen, garbage collection of old events, and the bookkeeping of
 * one check of a channel (merging fetched events, walking back through
 * archives). Network fetches and timers are not modelled: a fetch is returned
 * to the caller, and "now" is a parameter.
 */
module Channels {
  import opened Common

  /** The per-channel dictionary. Keys the code sets later are optional; a
      missing `events` key and an empty one are the same here. */
  datatype Channel = Channel(
    uri: string,
    events: map<string, int>,
    lifetime: Option<int>,
    precision: Option<int>,
    lastCheck: Option<int>,
    lastArchiveSeen: Option<string>)

  /** `{'uri': uri}`. */
  function NewChannel(uri: string): Channel {
    Channel(uri, map[], None, None, None, None)
  }

  const DefaultPrecision: int := 60
  const DefaultLifetime: int := 604800

  /** Python truthiness of `channel.get('lifetime', None)`. */
  predicate HasLifetime(c: Channel) {
    c.lifetime.Some? && c.lifetime.value != 0
  }

  /** The table after `add_channel(uri)`. */
  function WithChannel(m: map<string, Channel>, uri: string): (r: map<string, Channel>)
    ensures uri in r && r.Keys == m.Keys + {uri}
    ensures uri in m ==> r == m
    ensures uri !in m ==> r[uri] == NewChannel(uri) && forall k :: k in m ==> r[k] == m[k]
  {
    if uri in m then m else m[uri := NewChannel(uri)]
  }

  /** Adding a channel twice is adding it once. */
  lemma WithChannelIdempotent(m: map<string, Channel>, uri: string)
    ensures WithChannel(WithChannel(m, uri), uri) == WithChannel(m, uri)
  {
  }

  /** The events not older than `cutoff`. */
  function PruneEvents(events: map<string, int>, cutoff: int): map<string, int> {
    map k | k in events && !(events[k] < cutoff) :: events[k]
  }

  /** One channel after `_gc`: only a channel with a truthy lifetime loses events. */
  function GcChannel(c: Channel, now: int): Channel {
    if HasLifetime(c) then c.(events := PruneEvents(c.events, now - c.lifetime.value)) else c
  }

  function GcAll(m: map<string, Channel>, now: int): map<string, Channel> {
    map k | k in m :: GcChannel(m[k], now)
  }

  /** `_gc` keeps every channel, leaves channels without a lifetime alone and
      in the others deletes exactly the events older than `now - lifetime`. */
  lemma GcExactly(m: map<string, Channel>, now: int, ck: string, u: string)
    requires ck in m
    ensures var r := GcAll(m, now);
      && r.Keys == m.Keys
      && (!HasLifetime(m[ck]) ==> r[ck] == m[ck])
      && (HasLifetime(m[ck]) ==>
            && r[ck] == m[ck].(events := r[ck].events)
            && (u in r[ck].events <==> u in m[ck].events && m[ck].events[u] >= now - m[ck].lifetime.value)
            && (u in r[ck].events ==> r[ck].events[u] == m[ck].events[u]))
  {
  }

  /** Collecting twice, in either order of the two times, is the same as
      collecting once at the later time. */
  lemma GcTwice(m: map<string, Channel>, t1: int, t2: int)
    ensures GcAll(GcAll(m, t1), t2) == GcAll(m, if t1 >= t2 then t1 else t2)
  {
    var t := if t1 >= t2 then t1 else t2;
    forall k | k in m ensures GcChannel(GcChannel(m[k], t1), t2) == GcChannel(m[k], t) {
      var c := m[k];
      if HasLifetime(c) {
        var l := c.lifetime.value;
        assert PruneEvents(PruneEvents(c.events, t1 - l), t2 - l) == PruneEvents(c.events, t - l);
      }
    }
  }

  /** The manager's table of channels, changed in place. */
  class ChannelManager {
    var channels: map<string, Channel>

    constructor ()
      ensures channels == map[]
    {
      channels := map[];
    }

    /** `add_channel`: a new URI gets `{'uri': uri}`; a known one changes nothing. */
    method AddChannel(uri: string)
      modifies this
      ensures channels == WithChannel(old(channels), uri)
    {
      if uri !in channels {
        channels := channels[uri := NewChannel(uri)];
      }
    }

    /** `_check_done`: record the time of the check and store the channel. */
    method CheckDone(c: Channel, now: int)
      modifies this
      ensures channels == old(channels)[c.uri := c.(lastCheck := Some(now))]
    {
      channels := channels[c.uri := c.(lastCheck := Some(now))];
    }

    /** `_gc`: for every channel with a lifetime, delete the old events one by one. */
    method Gc(now: int)
      modifies this
      ensures channels == GcAll(old(channels), now)
    {
      ghost var start := channels;
      var todo := channels.Keys;
      while todo != {}
        invariant todo <= start.Keys && channels.Keys == start.Keys
        invariant forall k :: k in channels ==>
                    channels[k] == if k in todo then start[k] else GcChannel(start[k], now)
        decreases todo
      {
        var ck :| ck in todo;
        var c := channels[ck];
        if HasLifetime(c) {
          var cutoff := now - c.lifetime.value;
          var events := c.events;
          var items := c.events.Keys;
          while items != {}
            invariant items <= c.events.Keys && events.Keys <= c.events.Keys
            invariant forall k :: k in events ==> events[k] == c.events[k]
            invariant forall k :: k in c.events ==>
                        (k in events <==> k in items || !(c.events[k] < cutoff))
            decreases items
          {
            var k :| k in items;
            if c.events[k] < cutoff {
              events := events - {k};
            }
            items := items - {k};
          }
          assert events == PruneEvents(c.events, cutoff);
          channels := channels[ck := c.(events := events)];
        }
        todo := todo - {ck};
      }
    }
  }

  /** One `(uri, updated)` pair read from a feed; `None` when the entry's
      `updated` text was empty. */
  datatype FeedEvent = FeedEvent(uri: string, date: Option<int>)

  /** `channel['events'].get(uri, 0)`. */
  function Stored(events: map<string, int>, u: string): int {
    if u in events then events[u] else 0
  }

  /** The date used for an event: a missing one is replaced by the current time. */
  function EffectiveDate(e: FeedEvent, now: int): int {
    if e.date.None? then now else e.date.value
  }

  /** One step of `add_events`: a date not later than the stored one is skipped. */
  function MergeOne(events: map<string, int>, e: FeedEvent, now: int): map<string, int> {
    var d := EffectiveDate(e, now);
    if d <= Stored(events, e.uri) then events else events[e.uri := d]
  }

  /** The events after `add_events(evs)`. */
  function Merge(events: map<string, int>, evs: seq<FeedEvent>, now: int): map<string, int>
    decreases |evs|
  {
    if evs == [] then events
    else MergeOne(Merge(events, evs[..|evs| - 1], now), evs[|evs| - 1], now)
  }

  /** After merging, each URI's time is the largest of its previous time (0
      when absent) and every supplied date for it; a URI is present iff it was
      before or some supplied date for it is positive. */
  lemma {:induction false} MergeKeepsLatest(events: map<string, int>, evs: seq<FeedEvent>, now: int, u: string)
    ensures var m := Merge(events, evs, now);
      && Stored(m, u) >= Stored(events, u)
      && (forall i :: 0 <= i < |evs| && evs[i].uri == u ==> Stored(m, u) >= EffectiveDate(evs[i], now))
      && (Stored(m, u) == Stored(events, u)
          || exists i :: 0 <= i < |evs| && evs[i].uri == u && Stored(m, u) == EffectiveDate(evs[i], now))
      && (u in m <==> (u in events
          || exists i :: 0 <= i < |evs| && evs[i].uri == u && EffectiveDate(evs[i], now) > 0))
    decreases |evs|
  {
    if evs != [] {
      var init, last := evs[..|evs| - 1], evs[|evs| - 1];
      MergeKeepsLatest(events, init, now, u);
      assert forall i :: 0 <= i < |init| ==> init[i] == evs[i];
      var m0 := Merge(events, init, now);
      if last.uri == u && EffectiveDate(last, now) > Stored(m0, u) {
        assert evs[|evs| - 1].uri == u;
      }
    }
  }

  /** Merging never lowers a stored time and never forgets a URI. */
  lemma MergeNeverLowers(events: map<string, int>, evs: seq<FeedEvent>, now: int)
    ensures var m := Merge(events, evs, now);
      forall u :: u in events ==> u in m && m[u] >= events[u]
  {
    forall u | u in events ensures u in Merge(events, evs, now) && Merge(events, evs, now)[u] >= events[u] {
      MergeKeepsLatest(events, evs, now, u);
    }
  }

  function Reverse(s: seq<string>): (r: seq<string>)
    ensures |r| == |s|
    ensures forall i :: 0 <= i < |s| ==> r[i] == s[|s| - 1 - i]
    decreases |s|
  {
    if s == [] then [] else [s[|s| - 1]] + Reverse(s[..|s| - 1])
  }

  /** The loop of `done`: walk the requested archives oldest first, remember
      each one seen, and stop at the first one not seen. */
  function WalkSeen(oldestFirst: seq<string>, seen: seq<string>, last: Option<string>): Option<string>
    decreases |oldestFirst|
  {
    if oldestFirst == [] || oldestFirst[0] !in seen then last
    else WalkSeen(oldestFirst[1..], seen, Some(oldestFirst[0]))
  }

  /** The number of requested archives, oldest first, that were seen before
      the first one that was not. */
  function SeenPrefix(reqs: seq<string>, seen: seq<string>): (k: nat)
    ensures k <= |reqs|
    ensures forall j :: 0 <= j < k ==> reqs[j] in seen
    ensures k == |reqs| || reqs[k] !in seen
    decreases |reqs|
  {
    if reqs == [] || reqs[0] !in seen then 0 else 1 + SeenPrefix(reqs[1..], seen)
  }

  /** The walk leaves `last_archive_seen` unchanged when the oldest requested
      archive was not seen; otherwise it becomes the last archive of the longest
      seen prefix of the requests. */
  lemma {:induction false} WalkSeenStops(reqs: seq<string>, seen: seq<string>, last: Option<string>)
    ensures WalkSeen(reqs, seen, last)
         == if SeenPrefix(reqs, seen) == 0 then last else Some(reqs[SeenPrefix(reqs, seen) - 1])
    decreases |reqs|
  {
    if reqs != [] && reqs[0] in seen {
      WalkSeenStops(reqs[1..], seen, Some(reqs[0]));
    }
  }

  /** Which archive `check_prev` fetches: the `prev-archive` link, when there is
      a non-empty one and it is not the archive seen last. */
  function ArchiveToFetch(headLinks: map<string, string>, lastSeen: Option<string>): (r: Option<string>)
    ensures r.Some? <==> "prev-archive" in headLinks && headLinks["prev-archive"] != ""
                         && lastSeen != Some(headLinks["prev-archive"])
    ensures r.Some? ==> r.value == headLinks["prev-archive"]
  {
    if "prev-archive" in headLinks && headLinks["prev-archive"] != ""
       && lastSeen != Some(headLinks["prev-archive"])
    then Some(headLinks["prev-archive"]) else None
  }

  /** One check of one channel: the channel dictionary it updates and the
      archives it has asked for and received. */
  class AtomChannel {
    var channel: Channel
    var archivesRequested: seq<string>
    var archivesSeen: seq<string>

    constructor (c: Channel)
      ensures channel == c && archivesRequested == [] && archivesSeen == []
    {
      channel := c;
      archivesRequested := [];
      archivesSeen := [];
    }

    /** `add_events`. */
    method AddEvents(evs: seq<FeedEvent>, now: int)
      modifies this
      ensures channel == old(channel).(events := Merge(old(channel).events, evs, now))
      ensures archivesRequested == old(archivesRequested) && archivesSeen == old(archivesSeen)
    {
      var i := 0;
      ghost var c0 := channel;
      while i < |evs|
        invariant 0 <= i <= |evs|
        invariant channel == c0.(events := Merge(c0.events, evs[..i], now))
        invariant archivesRequested == old(archivesRequested) && archivesSeen == old(archivesSeen)
      {
        var e := evs[i];
        var date := if e.date.None? then now else e.date.value;
        assert evs[..i + 1][..i] == evs[..i];
        if date <= Stored(channel.events, e.uri) {
          i := i + 1;
          continue;
        }
        channel := channel.(events := channel.events[e.uri := date]);
        i := i + 1;
      }
      assert evs[..|evs|] == evs;
    }

    /** `done`: reverse the requests in place, then walk them oldest first. */
    method Done()
      modifies this
      ensures archivesRequested == Reverse(old(archivesRequested)) && archivesSeen == old(archivesSeen)
      ensures channel == old(channel).(lastArchiveSeen :=
        WalkSeen(Reverse(old(archivesRequested)), old(archivesSeen), old(channel).lastArchiveSeen))
    {
      archivesRequested := Reverse(archivesRequested);
      ghost var c0 := channel;
      var i := 0;
      while i < |archivesRequested|
        invariant 0 <= i <= |archivesRequested|
        invariant channel == c0.(lastArchiveSeen := channel.lastArchiveSeen)
        invariant archivesRequested == Reverse(old(archivesRequested)) && archivesSeen == old(archivesSeen)
        invariant WalkSeen(archivesRequested, archivesSeen, c0.lastArchiveSeen)
               == WalkSeen(archivesRequested[i..], archivesSeen, channel.lastArchiveSeen)
      {
        var archive := archivesRequested[i];
        if archive in archivesSeen {
          channel := channel.(lastArchiveSeen := Some(archive));
        } else {
          break;
        }
        i := i + 1;
      }
    }

    /** `check_prev`: ask for the preceding archive, or finish the check. */
    method CheckPrev(headLinks: map<string, string>) returns (fetch: Option<string>)
      modifies this
      ensures fetch == ArchiveToFetch(headLinks, old(channel).lastArchiveSeen)
      ensures fetch.Some? ==> && archivesRequested == old(archivesRequested) + [fetch.value]
                              && channel == old(channel) && archivesSeen == old(archivesSeen)
      ensures fetch.None? ==> && archivesRequested == Reverse(old(archivesRequested))
                              && archivesSeen == old(archivesSeen)
                              && channel == old(channel).(lastArchiveSeen :=
                                   WalkSeen(Reverse(old(archivesRequested)), old(archivesSeen),
                                            old(channel).lastArchiveSeen))
    {
      fetch := ArchiveToFetch(headLinks, channel.lastArchiveSeen);
      if fetch.Some? {
        archivesRequested := archivesRequested + [fetch.value];
      } else {
        Done();
      }
    }

    /** `process_sub_doc`: read the channel's lifetime and precision (a missing
        or empty value takes the default), merge its events, then either ask
        for the preceding archive or finish the check. */
    method ProcessSubDoc(headLinks: map<string, string>, lifetime: Option<int>, precision: Option<int>,
                         evs: seq<FeedEvent>, now: int) returns (fetch: Option<string>)
      modifies this
      ensures fetch == ArchiveToFetch(headLinks, old(channel).lastArchiveSeen)
      ensures var c := old(channel).(
                lifetime := Some(if lifetime.Some? then lifetime.value else DefaultLifetime),
                precision := Some(if precision.Some? then precision.value else DefaultPrecision),
                events := Merge(old(channel).events, evs, now));
        if fetch.Some? then
          && channel == c
          && archivesRequested == old(archivesRequested) + [fetch.value]
          && archivesSeen == old(archivesSeen)
        else
          && channel == c.(lastArchiveSeen :=
               WalkSeen(Reverse(old(archivesRequested)), old(archivesSeen), old(channel).lastArchiveSeen))
          && archivesRequested == Reverse(old(archivesRequested))
          && archivesSeen == old(archivesSeen)
    {
      channel := channel.(lifetime := Some(if lifetime.Some? then lifetime.value else DefaultLifetime));
      channel := channel.(precision := Some(if precision.Some? then precision.value else DefaultPrecision));
      AddEvents(evs, now);
      fetch := CheckPrev(headLinks);
    }

    /** `process_archive`: merge the archive's events, note it as seen, then
        either ask for the archive before it or finish the check, walking a
        list of seen archives that now includes this one. */
    method ProcessArchive(uri: string, headLinks: map<string, string>, evs: seq<FeedEvent>, now: int)
      returns (fetch: Option<string>)
      modifies this
      ensures fetch == ArchiveToFetch(headLinks, old(channel).lastArchiveSeen)
      ensures archivesSeen == old(archivesSeen) + [uri]
      ensures var c := old(channel).(events := Merge(old(channel).events, evs, now));
        if fetch.Some? then
          && channel == c
          && archivesRequested == old(archivesRequested) + [fetch.value]
        else
          && channel == c.(lastArchiveSeen :=
               WalkSeen(Reverse(old(archivesRequested)), old(archivesSeen) + [uri], old(channel).lastArchiveSeen))
          && archivesRequested == Reverse(old(archivesRequested))
    {
      AddEvents(evs, now);
      archivesSeen := archivesSeen + [uri];
      fetch := CheckPrev(headLinks);
    }
  }
}
