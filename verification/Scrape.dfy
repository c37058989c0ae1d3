/** What a scrape of the running portal says. */
module Scrape {
  import opened Common
  import opened Sessions
  import opened Store
  import opened Metrics
  import opened Exposition
  import P = Portal
  import E = EndToEnd
  import F = InPlace
  import A = Answers

  // ----- the counters -----

  /** Every increment the handlers make: one of their counters, whole pairs, name
      keys. */
  ghost predicate FromHandlers(inc: Inc) {
    inc == P.LIMITED || inc == P.NOT_SIGNED_IN
    || (exists kind :: inc == P.DeniedInc(kind) || inc == P.RevokedInc(kind))
    || (exists kind, profile :: inc == P.IssuedInc(kind, profile))
  }

  lemma NameKeys(key: string, value: string, more: seq<string>)
    requires IsName(key) && KeysAreNames(more)
    ensures KeysAreNames([key, value] + more)
  {
    var kv := [key, value] + more;
    forall i | 0 <= i < |kv| / 2 ensures IsName(kv[2 * i]) {
      assert i > 0 ==> kv[2 * i] == more[2 * (i - 1)];
    }
  }

  lemma LabelNames()
    ensures IsName("kind") && IsName("profile") && IsName("version")
  {
  }

  lemma IssuingNames()
    ensures IsName("gruff_certificates_issued_total") && IsName("gruff_authorization_denied_total")
  {
  }

  lemma OtherCounterNames()
    ensures IsName("gruff_rate_limited_total") && IsName("gruff_revocations_total")
  {
  }

  lemma SignInName()
    ensures IsName("gruff_sign_in_failures_total")
  {
  }

  lemma KindLabels(kind: Kind)
    ensures KeysAreNames(["kind", P.KindLabel(kind)])
  {
    LabelNames();
    assert KeysAreNames([]);
    NameKeys("kind", P.KindLabel(kind), []);
    assert ["kind", P.KindLabel(kind)] + [] == ["kind", P.KindLabel(kind)];
  }

  lemma IssuedLabels(kind: Kind, profile: string)
    ensures KeysAreNames(["kind", P.KindLabel(kind), "profile", profile])
  {
    LabelNames();
    assert KeysAreNames([]);
    NameKeys("profile", profile, []);
    assert ["profile", profile] + [] == ["profile", profile];
    hide KeysAreNames;
    NameKeys("kind", P.KindLabel(kind), ["profile", profile]);
    assert ["kind", P.KindLabel(kind)] + ["profile", profile] == ["kind", P.KindLabel(kind), "profile", profile];
  }

  lemma HandlersWellFormed(inc: Inc)
    requires FromHandlers(inc)
    ensures WellFormed(inc)
    ensures IsName(inc.name) && inc.name in COUNTER_HELP
  {
    IssuingNames();
    OtherCounterNames();
    SignInName();
    hide IsName;
    assert KeysAreNames([]);
    if inc == P.LIMITED || inc == P.NOT_SIGNED_IN {
    } else if kind :| inc == P.DeniedInc(kind) || inc == P.RevokedInc(kind) {
      KindLabels(kind);
    } else {
      var kind, profile :| inc == P.IssuedInc(kind, profile);
      IssuedLabels(kind, profile);
    }
  }

  lemma RespondIncs(st: P.Settings, h: P.History, ev: P.Event)
    ensures forall i: nat | i < |P.Respond(st, h, ev).0.incs| :: FromHandlers(P.Respond(st, h, ev).0.incs[i])
  {
    hide P.PublishNow, P.VisibleAfterRead, P.FirstWithSerial, P.LimiterReply, P.GrantFor, P.Expiry, P.GaugesNow;
  }

  lemma {:induction false} ServeIncs(st: P.Settings, events: seq<P.Event>)
    ensures forall i: nat | i < |P.Serve(st, events).incs| :: FromHandlers(P.Serve(st, events).incs[i])
  {
    hide FromHandlers, P.Respond;
    if events != [] {
      var front, last := events[..|events| - 1], events[|events| - 1];
      ServeIncs(st, front);
      RespondIncs(st, P.Serve(st, front), last);
    }
  }

  function OfGrant(kind: Kind, profile: string): Session -> bool {
    (s: Session) => s.kind == kind && s.profile == profile
  }

  lemma {:induction false} OccurrencesConcat(a: seq<Inc>, b: seq<Inc>, inc: Inc)
    ensures Occurrences(a + b, inc) == Occurrences(a, inc) + Occurrences(b, inc)
    decreases |b|
  {
    if b == [] {
      assert a + b == a;
    } else {
      assert (a + b)[..|a + b| - 1] == a + b[..|b| - 1];
      OccurrencesConcat(a, b[..|b| - 1], inc);
    }
  }

  lemma OccurrencesOne(x: Inc, inc: Inc)
    ensures Occurrences([x], inc) == if x == inc then 1 else 0
    ensures Occurrences([], inc) == 0
  {
    assert [x][..0] == [];
  }

  lemma IssuedIncDistinct(kind: Kind, profile: string, k: Kind, p: string)
    ensures P.IssuedInc(kind, profile) == P.IssuedInc(k, p) <==> kind == k && profile == p
    ensures P.IssuedInc(kind, profile) != P.DeniedInc(k) && P.IssuedInc(kind, profile) != P.RevokedInc(k)
    ensures P.IssuedInc(kind, profile) != P.LIMITED && P.IssuedInc(kind, profile) != P.NOT_SIGNED_IN
  {
    assert "gruff_certificates_issued_total"[6] == 'c' && "gruff_authorization_denied_total"[6] == 'a';
    assert "gruff_sign_in_failures_total"[6] == 's';
    assert "gruff_revocations_total"[6] == 'r' && "gruff_rate_limited_total"[6] == 'r';
    assert "vpn"[0] == 'v' && "ssh"[0] == 's';
    var a, b := P.IssuedInc(kind, profile).labels, P.IssuedInc(k, p).labels;
    assert a == b ==> a[1] == b[1] && a[3] == b[3];
  }

  /** A request makes one increment at most, and that of the issued counter only
      when it issues. */
  lemma IncsMade(st: P.Settings, h: P.History, ev: P.Event)
    ensures var (more, status) := P.Respond(st, h, ev);
            if status.Issued?
            then ev.Issue? && more.incs == [P.IssuedInc(ev.kind, ev.profile)]
                 && more.ops == [AddSession(status.session, ev.now)]
                 && status.session.kind == ev.kind && status.session.profile == ev.profile
            else more.incs == [] || more.incs == [P.LIMITED] || more.incs == [P.NOT_SIGNED_IN]
                 || exists k :: more.incs == [P.DeniedInc(k)] || more.incs == [P.RevokedInc(k)]
  {
    hide P.IssuedInc, P.DeniedInc, P.RevokedInc, P.PublishNow, P.VisibleAfterRead, P.FirstWithSerial;
    hide P.LimiterReply, P.GrantFor, P.Expiry;
  }

  /** A request counts as issued exactly when it records a session. */
  lemma RespondCounts(st: P.Settings, h: P.History, ev: P.Event, kind: Kind, profile: string)
    ensures var more := P.Respond(st, h, ev).0;
            Occurrences(more.incs, P.IssuedInc(kind, profile)) == |Filter(Added(more.ops), OfGrant(kind, profile))|
  {
    var (more, status) := P.Respond(st, h, ev);
    var inc := P.IssuedInc(kind, profile);
    IncsMade(st, h, ev);
    if status.Issued? {
      hide P.Respond, P.IssuedInc;
      P.AddedOne(status.session, ev.now);
      IssuedIncDistinct(kind, profile, ev.kind, ev.profile);
    } else {
      P.NotIssued(st, h, ev);
      hide P.Respond, P.IssuedInc, P.DeniedInc, P.RevokedInc, Added;
      IssuedIncDistinct(kind, profile, Vpn, "");
      IssuedIncDistinct(kind, profile, Ssh, "");
    }
    OccurrencesOne(if more.incs == [] then inc else more.incs[0], inc);
  }

  lemma {:induction false} ServeCounts(st: P.Settings, events: seq<P.Event>, kind: Kind, profile: string)
    ensures var h := P.Serve(st, events);
            Occurrences(h.incs, P.IssuedInc(kind, profile)) == |Filter(Added(h.ops), OfGrant(kind, profile))|
  {
    hide P.Respond, P.IssuedInc;
    if events != [] {
      var front, last := events[..|events| - 1], events[|events| - 1];
      var h := P.Serve(st, front);
      var more := P.Respond(st, h, last).0;
      ServeCounts(st, front, kind, profile);
      RespondCounts(st, h, last, kind, profile);
      OccurrencesConcat(h.incs, more.incs, P.IssuedInc(kind, profile));
      P.AddedConcat(h.ops, more.ops);
      FilterConcat(Added(more.ops), Added(h.ops), OfGrant(kind, profile));
    }
  }

  /** The issued counter of a kind and profile is the number of credentials ever
      recorded for it; evictions and expiry never take any back. */
  lemma IssuedCounterIsExact(st: P.Settings, events: seq<P.Event>, kind: Kind, profile: string)
    ensures var h := P.Serve(st, events);
            var key := SeriesOf(P.IssuedInc(kind, profile));
            var issued := |Filter(Added(h.ops), OfGrant(kind, profile))|;
            if issued == 0 then key !in Tally(h.incs) else key in Tally(h.incs) && Tally(h.incs)[key] == issued
  {
    var h := P.Serve(st, events);
    var inc := P.IssuedInc(kind, profile);
    ServeIncs(st, events);
    ServeCounts(st, events, kind, profile);
    assert FromHandlers(inc);
    HandlersWellFormed(inc);
    hide P.Serve, P.IssuedInc, WellFormed, FromHandlers, Tally, Occurrences;
    forall i | 0 <= i < |h.incs| ensures WellFormed(h.incs[i]) {
      HandlersWellFormed(h.incs[i]);
    }
    CountsAreOccurrences(h.incs, inc);
  }

  // ----- the gauges -----

  const BUILD_HELP: string := "Build information; always 1."
  const TRACKED_HELP: string := "Issued credentials " + "the audit list " + "is holding."
  const CAPACITY_START: string := "Most the audit list " + "will hold; past it " + "the oldest-expiring "
  const CAPACITY_END: string := "are forgotten and " + "can no longer be " + "revoked."
  const CAPACITY_HELP: string := CAPACITY_START + CAPACITY_END
  const ACTIVE_HELP: string := "Revoked credentials " + "that have not yet " + "expired."

  /** collectGauges, from what the store reports. */
  function Collected(version: string, held: nat, limit: nat, vpn: nat, ssh: nat): seq<Gauge> {
    [Gauge("gruff_build_info", BUILD_HELP, FormatLabels(["version", version]), 1),
     Gauge("gruff_sessions_tracked", TRACKED_HELP, "", held),
     Gauge("gruff_sessions_capacity", CAPACITY_HELP, "", limit),
     Gauge("gruff_revocations_active", ACTIVE_HELP, FormatLabels(["kind", P.KindLabel(Vpn)]), vpn),
     Gauge("gruff_revocations_active", ACTIVE_HELP, FormatLabels(["kind", P.KindLabel(Ssh)]), ssh)]
  }

  lemma SessionGaugeNames()
    ensures IsName("gruff_sessions_tracked") && IsName("gruff_sessions_capacity")
  {
  }

  lemma OtherGaugeNames()
    ensures IsName("gruff_build_info") && IsName("gruff_revocations_active")
  {
  }

  lemma IssuedHelp() ensures '\n' !in ISSUED_HELP {}

  lemma DeniedHelp() ensures '\n' !in DENIED_HELP {}

  lemma LimitedHelp() ensures '\n' !in LIMITED_HELP {}

  lemma RevokedHelp() ensures '\n' !in REVOKED_HELP {}

  lemma SignInHelp() ensures '\n' !in SIGN_IN_HELP {}

  lemma BuildHelp() ensures '\n' !in BUILD_HELP {}

  lemma TrackedHelp() ensures '\n' !in TRACKED_HELP {}

  lemma CapacityStart() ensures '\n' !in CAPACITY_START {}

  lemma CapacityEnd() ensures '\n' !in CAPACITY_END {}

  lemma CapacityHelp()
    ensures '\n' !in CAPACITY_HELP
  {
    CapacityStart();
    CapacityEnd();
    hide CAPACITY_START, CAPACITY_END;
  }

  lemma ActiveHelp() ensures '\n' !in ACTIVE_HELP {}

  lemma CounterHelps(name: string)
    requires name in COUNTER_HELP
    ensures '\n' !in HelpOf(name)
  {
    IssuedHelp();
    DeniedHelp();
    LimitedHelp();
    RevokedHelp();
    SignInHelp();
    hide ISSUED_HELP, DENIED_HELP, LIMITED_HELP, REVOKED_HELP, SIGN_IN_HELP;
  }

  // ----- the whole scrape -----

  lemma GaugesWritable(version: string, held: nat, limit: nat, vpn: nat, ssh: nat)
    ensures forall g | g in Collected(version, held, limit, vpn, ssh) :: Writable(GaugeItem(g))
  {
    SessionGaugeNames();
    OtherGaugeNames();
    BuildHelp();
    TrackedHelp();
    CapacityHelp();
    ActiveHelp();
    VersionLabels(version);
    KindLabels(Vpn);
    KindLabels(Ssh);
    NoLabels();
    hide IsName, BUILD_HELP, TRACKED_HELP, CAPACITY_HELP, ACTIVE_HELP, KeysAreNames, FormatLabels, P.KindLabel;
  }

  lemma VersionLabels(version: string)
    ensures KeysAreNames(["version", version])
  {
    LabelNames();
    assert KeysAreNames([]);
    NameKeys("version", version, []);
    assert ["version", version] + [] == ["version", version];
  }

  lemma NoLabels()
    ensures Flattened("")
  {
    assert KeysAreNames([]) && FormatLabels([]) == "";
  }

  lemma GaugesGrouped(version: string, held: nat, limit: nat, vpn: nat, ssh: nat)
    ensures Grouped(GaugeItems(Collected(version, held, limit, vpn, ssh)))
  {
    hide FormatLabels, BUILD_HELP, TRACKED_HELP, CAPACITY_HELP, ACTIVE_HELP;
    var items := GaugeItems(Collected(version, held, limit, vpn, ssh));
    assert "gruff_build_info"[6] == 'b' && "gruff_revocations_active"[6] == 'r';
    assert "gruff_sessions_tracked"[6] == 's' && "gruff_sessions_capacity"[6] == 's';
    assert |"gruff_sessions_tracked"| == 22 && |"gruff_sessions_capacity"| == 23;
    assert items[0].name != items[1].name && items[0].name != items[2].name && items[0].name != items[3].name;
    assert items[1].name != items[2].name && items[1].name != items[3].name && items[2].name != items[3].name;
    assert items[3].name == items[4].name;
  }

  lemma CountersWritable(st: P.Settings, events: seq<P.Event>)
    ensures var counts := Tally(P.Serve(st, events).incs);
            forall s | s in counts :: Writable(CounterItem(counts, s)) && s.name in COUNTER_HELP
  {
    var incs := P.Serve(st, events).incs;
    var counts := Tally(incs);
    ServeIncs(st, events);
    hide P.Serve, Tally, FromHandlers, FormatLabels, COUNTER_HELP, IsName, KeysAreNames;
    forall s | s in counts ensures Writable(CounterItem(counts, s)) && s.name in COUNTER_HELP {
      KeysWereIncremented(incs, s);
      var i :| 0 <= i < |incs| && SeriesOf(incs[i]) == s;
      HandlersWellFormed(incs[i]);
      CounterHelps(s.name);
    }
  }

  lemma GaugesAreNotCounters(version: string, held: nat, limit: nat, vpn: nat, ssh: nat)
    ensures forall g | g in Collected(version, held, limit, vpn, ssh) :: g.name !in COUNTER_HELP
  {
    hide FormatLabels, BUILD_HELP, TRACKED_HELP, CAPACITY_HELP, ACTIVE_HELP;
    hide ISSUED_HELP, DENIED_HELP, LIMITED_HELP, REVOKED_HELP, SIGN_IN_HELP;
    assert |"gruff_build_info"| == 16 && |"gruff_sessions_tracked"| == 22;
    assert |"gruff_sessions_capacity"| == 23 && |"gruff_revocations_active"| == 24;
    assert |"gruff_certificates_issued_total"| == 31 && |"gruff_authorization_denied_total"| == 32;
    assert |"gruff_rate_limited_total"| == 24 && |"gruff_revocations_total"| == 23;
    assert |"gruff_sign_in_failures_total"| == 28;
    assert "gruff_sessions_capacity"[6] == 's' && "gruff_revocations_total"[6] == 'r';
    assert "gruff_revocations_active"[7] == 'e' && "gruff_rate_limited_total"[7] == 'a';
  }

  /** What a scrape at now collects: the store's own answers. */
  function GaugesAt(st: P.Settings, h: P.History, version: string, now: Time): seq<Gauge> {
    GaugesOf(version, P.Respond(st, h, P.Scrape(now)).1)
  }

  function GaugesOf(version: string, status: P.Status): seq<Gauge> {
    match status
    case Gauges(held, limit, vpn, ssh) => Collected(version, held, limit, vpn, ssh)
    case _ => []
  }

  /** The credentials of a kind that have been revoked and have not expired. */
  ghost function RevokedLive(st: P.Settings, events: seq<P.Event>, kind: Kind, now: Time): set<Session> {
    set s | s in Added(P.Serve(st, events).ops) && s.kind == kind && now <= s.expiresAt
            && E.SomeRevoked(st, events, s.serial)
  }

  ghost function SerialsOf(sessions: set<Session>): set<string> {
    set s | s in sessions :: s.serial
  }

  ghost function SerialsListed(revoked: seq<Revocation>): set<string> {
    set r | r in revoked :: r.serial
  }

  lemma {:induction false} DistinctSerials(sessions: set<Session>)
    requires forall a, b | a in sessions && b in sessions && a.serial == b.serial :: a == b
    ensures |SerialsOf(sessions)| == |sessions|
  {
    if sessions != {} {
      var s :| s in sessions;
      DistinctSerials(sessions - {s});
      assert SerialsOf(sessions) == SerialsOf(sessions - {s}) + {s.serial};
    }
  }

  lemma {:induction false} UniqueListed(revoked: seq<Revocation>)
    requires UniqueSerials(revoked)
    ensures |SerialsListed(revoked)| == |revoked|
  {
    if revoked != [] {
      var n := |revoked| - 1;
      var front, last := revoked[..n], revoked[n];
      UniqueListed(front);
      assert revoked == front + [last];
      assert SerialsListed(revoked) == SerialsListed(front) + {last.serial};
    }
  }

  lemma RevocationsCounted(st: P.Settings, events: seq<P.Event>, kind: Kind, now: Time)
    requires P.InOrder(events) && E.MintsDistinct(events)
    requires forall i: nat | i < |events| :: events[i].now <= now
    ensures |Listed(Run(P.Serve(st, events).ops, P.Capacity(st)), kind, now)| == |RevokedLive(st, events, kind, now)|
  {
    var ops := P.Serve(st, events).ops;
    var listed := Listed(Run(ops, P.Capacity(st)), kind, now);
    var live := RevokedLive(st, events, kind, now);
    ListedUnique(ops, P.Capacity(st), kind, now);
    hide P.Serve, Added, Run, Listed, E.Revoked, P.InOrder, E.MintsDistinct, UniqueSerials, CountSerial;
    UniqueListed(listed);
    forall a, b | a in live && b in live && a.serial == b.serial ensures a == b {
      E.SerialNamesSession(st, events, a, b);
    }
    DistinctSerials(live);
    forall r | r in listed ensures r.serial in SerialsOf(live) {
      F.ListedWasIssued(st, events, kind, now, r);
      var s: Session, k: nat :| F.RevokedAs(st, events, r, s, k);
      assert s in live;
    }
    forall s | s in live ensures s.serial in SerialsListed(listed) {
      E.RevokedIsListedUntilExpiry(st, events, s, now);
      F.CountedIsIn(listed, s.serial);
    }
    assert SerialsListed(listed) == SerialsOf(live);
  }

  lemma ListedUnique(ops: seq<Op>, max: nat, kind: Kind, now: Time)
    ensures UniqueSerials(Listed(Run(ops, max), kind, now))
  {
    RunKeepsUnique(ops, max);
    FilterKeepsUnique(Run(ops, max).revoked, Current(now));
    FilterKeepsUnique(Filter(Run(ops, max).revoked, Current(now)), OfKind(kind));
  }

  /** The gauges are true: a scrape reports how many unexpired credentials there
      are, up to the bound, and, of each kind, how many have been revoked and have
      not expired. */
  lemma GaugesAreExact(st: P.Settings, events: seq<P.Event>, now: Time)
    requires P.InOrder(events) && E.MintsDistinct(events)
    requires forall i: nat | i < |events| :: events[i].now <= now
    ensures var h := P.Serve(st, events);
            P.Respond(st, h, P.Scrape(now)).1
            == P.Gauges(Min(P.Capacity(st), |Live(Added(h.ops), now)|), P.Capacity(st),
                        |RevokedLive(st, events, Vpn, now)|, |RevokedLive(st, events, Ssh, now)|)
  {
    hide P.Serve, Added, Live, Listed, Run, P.Capacity, P.InOrder, E.MintsDistinct, RevokedLive;
    var ops, max := P.Serve(st, events).ops, P.Capacity(st);
    RevocationsCounted(st, events, Vpn, now);
    RevocationsCounted(st, events, Ssh, now);
    ListedAfterCount(ops, max, Vpn, now);
    ListedAfterCount(ops, max, Ssh, now);
    P.ServeUpTo(st, events, now);
    TrackedIsExact(ops, max, now);
  }

  lemma ListedAfterCount(ops: seq<Op>, max: nat, kind: Kind, now: Time)
    ensures Listed(Run(ops + [CountTracked(now)], max), kind, now) == Listed(Run(ops, max), kind, now)
  {
    P.RunOne(ops, CountTracked(now), max);
  }

  lemma TrackedIsExact(ops: seq<Op>, max: nat, now: Time)
    requires Store.Ordered(ops) && forall i: nat | i < |ops| :: ops[i].now <= now
    ensures |Run(ops + [CountTracked(now)], max).sessions| == Min(max, |Live(Added(ops), now)|)
  {
    var more := ops + [CountTracked(now)];
    assert more[..|ops|] == ops && more[|ops|] == CountTracked(now);
    StreamingEqualsBatch(more, max);
    assert Added(more) == [] + Added(ops) == Added(ops);
    var keep := BestMask(Live(Added(ops), now), max);
  }

  /** MetricsHandler: the gauges are collected and the exposition written. */
  method ServeMetrics(p: P.Portal, version: string, now: Time) returns (w: string)
    requires p.Valid()
    modifies p.Repr
    ensures p.Valid() && p.h == P.After(p.st, old(p.h), P.Scrape(now))
    ensures Exposes(w, Tally(old(p.h).incs), GaugesAt(p.st, old(p.h), version, now))
  {
    hide Tally, P.GaugesNow, Collected, Exposes;
    hide P.Portal.LimiterIs, P.Portal.StoreIs, P.Portal.FilesAre, P.Portal.Owned;
    var status := p.CollectGauges(now);
    assert p.metrics.counts == Tally(p.h.incs) && p.h.incs == old(p.h).incs + [] == old(p.h).incs;
    w := p.metrics.WriteTo(GaugesOf(version, status));
  }

  /** A scrape of the portal after any run is well formed: parsed back it is a list
      of lines in which every metric has one HELP and one TYPE before its first
      sample, and whose counter samples are exactly the counters. */
  lemma ScrapeIsWellFormed(st: P.Settings, events: seq<P.Event>, names: seq<Series>,
                           version: string, now: Time, metric: string)
    requires metric != "" && SortedKeys(names, Tally(P.Serve(st, events).incs).Keys)
    ensures var counts := Tally(P.Serve(st, events).incs);
            var gauges := GaugesAt(st, P.Serve(st, events), version, now);
            var counterLines := ItemsLines(CounterItems(counts, names), "");
            var lines := counterLines + ItemsLines(GaugeItems(gauges), "");
            && ParseLines(ItemsText(CounterItems(counts, names), "") + ItemsText(GaugeItems(gauges), "")) == Some(lines)
            && Headed(lines, metric, false, false)
            && Recovered(counterLines) == counts
  {
    var counts := Tally(P.Serve(st, events).incs);
    hide P.Serve, Tally;
    var g := P.GaugesNow(st, P.Serve(st, events).ops, now);
    hide Collected, ParseLines, ItemsText, ItemsLines, Headed, Recovered, COUNTER_HELP, Flattened;
    var gauges := Collected(version, g.held, g.limit, g.vpn, g.ssh);
    assert gauges == GaugesAt(st, P.Serve(st, events), version, now);
    hide GaugesAt;
    CountersWritable(st, events);
    GaugesWritable(version, g.held, g.limit, g.vpn, g.ssh);
    GaugesGrouped(version, g.held, g.limit, g.vpn, g.ssh);
    GaugesAreNotCounters(version, g.held, g.limit, g.vpn, g.ssh);
    ExpositionParsesBack(counts, names, gauges);
    OneHeaderPerName(counts, names, gauges, metric);
    forall s | s in names ensures s in counts && Flattened(s.labels) {
      assert Writable(CounterItem(counts, s));
    }
    CountersRecovered(counts, names, "");
    assert counts == CountsOf(counts, names);
  }

  // ----- what the text says -----

  /** The label lists of the gauges, in the order they are collected. */
  function GaugeLabels(version: string): seq<seq<string>> {
    [["version", version], [], [], ["kind", "vpn"], ["kind", "ssh"]]
  }

  lemma LabelsAreNames(version: string)
    ensures forall i: nat | i < 5 :: |GaugeLabels(version)[i]| % 2 == 0 && KeysAreNames(GaugeLabels(version)[i])
  {
    VersionLabels(version);
    KindLabels(Vpn);
    KindLabels(Ssh);
    hide IsName;
    assert KeysAreNames([]);
    hide KeysAreNames;
  }

  lemma CollectedLabels(version: string, held: nat, limit: nat, vpn: nat, ssh: nat)
    ensures var gauges, labels := Collected(version, held, limit, vpn, ssh), GaugeLabels(version);
            |gauges| == 5 && forall i: nat | i < 5 :: gauges[i].labels == FormatLabels(labels[i])
  {
    assert FormatLabels([]) == "";
    hide FormatLabels, BUILD_HELP, TRACKED_HELP, CAPACITY_HELP, ACTIVE_HELP;
  }

  /** The samples of five gauges with these values. */
  function GaugeSamples(version: string, held: nat, limit: nat, vpn: nat, ssh: nat): seq<Line> {
    [Sample("gruff_build_info", ["version", version], 1),
     Sample("gruff_sessions_tracked", [], held),
     Sample("gruff_sessions_capacity", [], limit),
     Sample("gruff_revocations_active", ["kind", "vpn"], vpn),
     Sample("gruff_revocations_active", ["kind", "ssh"], ssh)]
  }

  const GAUGE_NAMES: set<string> :=
    {"gruff_build_info", "gruff_sessions_tracked", "gruff_sessions_capacity", "gruff_revocations_active"}

  const COUNTER_NAMES: set<string> :=
    {"gruff_certificates_issued_total", "gruff_authorization_denied_total", "gruff_rate_limited_total",
     "gruff_revocations_total", "gruff_sign_in_failures_total"}

  lemma CollectedSamples(version: string, held: nat, limit: nat, vpn: nat, ssh: nat)
    ensures var gauges, labels := Collected(version, held, limit, vpn, ssh), GaugeLabels(version);
            var samples := GaugeSamples(version, held, limit, vpn, ssh);
            && |gauges| == |labels| == |samples| == 5
            && forall i: nat | i < 5 :: samples[i] == Sample(gauges[i].name, labels[i], gauges[i].value)
  {
    hide FormatLabels, BUILD_HELP, TRACKED_HELP, CAPACITY_HELP, ACTIVE_HELP;
  }

  lemma GaugeLinesSay(version: string, held: nat, limit: nat, vpn: nat, ssh: nat)
    ensures var lines := ItemsLines(GaugeItems(Collected(version, held, limit, vpn, ssh)), "");
            && Samples(lines) == GaugeSamples(version, held, limit, vpn, ssh)
            && forall line | line in lines && line.Type? :: line.kind == "gauge" && line.name in GAUGE_NAMES
  {
    hide Collected, GaugeSamples, GaugeLabels, FormatLabels, KeysAreNames, Samples, ItemsLines, GaugeItems, GAUGE_NAMES;
    var gauges := Collected(version, held, limit, vpn, ssh);
    LabelsAreNames(version);
    CollectedLabels(version, held, limit, vpn, ssh);
    CollectedSamples(version, held, limit, vpn, ssh);
    GaugesRecovered(gauges, GaugeLabels(version), "");
    CollectedNames(version, held, limit, vpn, ssh);
  }

  lemma CollectedNames(version: string, held: nat, limit: nat, vpn: nat, ssh: nat)
    ensures forall g | g in Collected(version, held, limit, vpn, ssh) :: g.name in GAUGE_NAMES
  {
    hide FormatLabels, BUILD_HELP, TRACKED_HELP, CAPACITY_HELP, ACTIVE_HELP;
  }

  lemma CounterNames(st: P.Settings, events: seq<P.Event>)
    ensures forall s | s in Tally(P.Serve(st, events).incs) :: s.name in COUNTER_NAMES
  {
    CountersWritable(st, events);
    hide P.Serve, Tally, Writable, ISSUED_HELP, DENIED_HELP, LIMITED_HELP, REVOKED_HELP, SIGN_IN_HELP;
  }

  /** What a scrape served after any run of the portal tells its reader. Parsed, the
      text has the samples of the counters, and after them the build with its
      version, how many unexpired credentials there are, up to the bound, the bound,
      and how many of each kind have been revoked and have not expired. Each TYPE line
      says counter of a counter and gauge of a gauge. */
  lemma ScrapeSays(st: P.Settings, events: seq<P.Event>, w: string, version: string, now: Time, max: nat)
    requires P.InOrder(events) && E.MintsDistinct(events) && A.BoundIs(st.config, max)
    requires forall i: nat | i < |events| :: events[i].now <= now
    requires Exposes(w, Tally(P.Serve(st, events).incs), GaugesAt(st, P.Serve(st, events), version, now))
    ensures ParseLines(w).Some?
    ensures var lines := ParseLines(w).value;
            var live := Live(Added(P.Serve(st, events).ops), now);
            && (exists counters ::
                 && Samples(lines) == counters + GaugeSamples(version, Min(max, |live|), max,
                      |RevokedLive(st, events, Vpn, now)|, |RevokedLive(st, events, Ssh, now)|)
                 && Recovered(counters) == Tally(P.Serve(st, events).incs))
            && forall line | line in lines && line.Type? ::
                 || (line.kind == "counter" && line.name in COUNTER_NAMES)
                 || (line.kind == "gauge" && line.name in GAUGE_NAMES)
  {
    hide P.Serve, Tally, Added, Live, RevokedLive, Collected, ParseLines, P.InOrder, E.MintsDistinct, GaugeSamples;
    hide Samples, Recovered, COUNTER_NAMES, GAUGE_NAMES, GaugesAt, Min, ItemsText, GaugeItems;
    var h := P.Serve(st, events);
    var counts, gauges := Tally(h.incs), GaugesAt(st, h, version, now);
    CollectedExactly(st, events, version, now, max);
    var names :| SortedKeys(names, counts.Keys)
      && w == ItemsText(CounterItems(counts, names), "") + ItemsText(GaugeItems(gauges), "");
    CounterNames(st, events);
    var lines := ScrapeParses(st, events, names, version, now);
    LinesSay(counts, names, version, Min(max, |Live(Added(h.ops), now)|), max,
             |RevokedLive(st, events, Vpn, now)|, |RevokedLive(st, events, Ssh, now)|);
  }

  lemma CollectedExactly(st: P.Settings, events: seq<P.Event>, version: string, now: Time, max: nat)
    requires P.InOrder(events) && E.MintsDistinct(events) && A.BoundIs(st.config, max)
    requires forall i: nat | i < |events| :: events[i].now <= now
    ensures GaugesAt(st, P.Serve(st, events), version, now)
         == Collected(version, Min(max, |Live(Added(P.Serve(st, events).ops), now)|), max,
                      |RevokedLive(st, events, Vpn, now)|, |RevokedLive(st, events, Ssh, now)|)
  {
    assert P.Capacity(st) == max;
    hide P.Serve, Added, Live, RevokedLive, Collected, P.Respond, P.InOrder, E.MintsDistinct, P.Capacity;
    GaugesAreExact(st, events, now);
  }

  lemma ScrapeParses(st: P.Settings, events: seq<P.Event>, names: seq<Series>, version: string, now: Time)
    returns (lines: seq<Line>)
    requires SortedKeys(names, Tally(P.Serve(st, events).incs).Keys)
    ensures var counts, gauges := Tally(P.Serve(st, events).incs), GaugesAt(st, P.Serve(st, events), version, now);
            var counterLines := ItemsLines(CounterItems(counts, names), "");
            && lines == counterLines + ItemsLines(GaugeItems(gauges), "")
            && ParseLines(ItemsText(CounterItems(counts, names), "") + ItemsText(GaugeItems(gauges), "")) == Some(lines)
            && Recovered(counterLines) == counts
  {
    hide P.Serve, Tally, GaugesAt, ParseLines, ItemsText, ItemsLines, Recovered, Headed;
    ScrapeIsWellFormed(st, events, names, version, now, "x");
    var counts, gauges := Tally(P.Serve(st, events).incs), GaugesAt(st, P.Serve(st, events), version, now);
    lines := ItemsLines(CounterItems(counts, names), "") + ItemsLines(GaugeItems(gauges), "");
  }

  /** The lines of some counters and of the five gauges, with their samples. */
  lemma LinesSay(counts: Counts, names: seq<Series>, version: string, held: nat, limit: nat, vpn: nat, ssh: nat)
    requires forall s | s in names :: s in counts && s.name in COUNTER_NAMES
    requires Recovered(ItemsLines(CounterItems(counts, names), "")) == counts
    ensures var gauges := Collected(version, held, limit, vpn, ssh);
            var lines := ItemsLines(CounterItems(counts, names), "") + ItemsLines(GaugeItems(gauges), "");
            && (exists counters ::
                 && Samples(lines) == counters + GaugeSamples(version, held, limit, vpn, ssh)
                 && Recovered(counters) == counts)
            && forall line | line in lines && line.Type? ::
                 || (line.kind == "counter" && line.name in COUNTER_NAMES)
                 || (line.kind == "gauge" && line.name in GAUGE_NAMES)
  {
    hide Collected, GaugeSamples, ItemsLines, Samples, Recovered, COUNTER_NAMES, GAUGE_NAMES, GaugeItems, HelpOf;
    var counters := ItemsLines(CounterItems(counts, names), "");
    var rest := ItemsLines(GaugeItems(Collected(version, held, limit, vpn, ssh)), "");
    GaugeLinesSay(version, held, limit, vpn, ssh);
    SamplesConcat(counters, rest);
    CountersTyped(counts, names, "");
    RecoveredSamples(counters);
    assert Samples(counters + rest) == Samples(counters) + GaugeSamples(version, held, limit, vpn, ssh);
  }

  /** Only samples count for what is recovered. */
  lemma {:induction false} RecoveredSamples(lines: seq<Line>)
    ensures Recovered(Samples(lines)) == Recovered(lines)
  {
    if lines != [] {
      RecoveredSamples(lines[1..]);
      hide Recovered;
      RecoveredLine(lines[0], lines[1..]);
      RecoveredLine(lines[0], Samples(lines[1..]));
      assert [lines[0]] + lines[1..] == lines;
      assert [] + Samples(lines[1..]) == Samples(lines[1..]);
    }
  }
}
