/** The portal's handlers over the limiter, the store and the counters, and what
    whole runs of them guarantee. */
module Portal {
  import opened Common
  import opened Sessions
  import opened Store
  import opened Config
  import RateLimit
  import Metrics
  import Exposition
  import Publish
  import Refresh
  import AtomicFile

  // ----- requests and what comes of them -----

  datatype Identity = Identity(username: string, roles: seq<string>, admin: bool)

  /** A request, a tick of the publishing timer or a scrape, with its clock reading.
      printable is the verdict of printableUsername; mint is the serial the CA drew,
      unless signing failed; the outcomes are those of replacing the two files, if
      it comes to that. */
  datatype Event =
    | Issue(kind: Kind, id: Identity, printable: bool, profile: string, mint: Option<string>, clientIp: string,
            now: Time)
    | RevokeSerial(id: Identity, serial: string, crlOutcome: Publish.Outcome, krlOutcome: Publish.Outcome, now: Time)
    | ViewIssued(id: Identity, now: Time)
    | PublishLists(crlOutcome: Publish.Outcome, krlOutcome: Publish.Outcome, now: Time)
    | Scrape(now: Time)
    | SignInFailure(now: Time)

  datatype Status =
    | Forbidden
    | TooMany(retryAfter: Time)
    | Failed
    | Issued(session: Session)
    | SeeOther
    | Page(sessions: seq<Session>)
    | PublishedLists(ok: bool)
    | Gauges(held: nat, limit: nat, vpn: nat, ssh: nat)

  /** What does not change while the portal runs; sshKey is the key of the SSH CA. */
  datatype Settings = Settings(config: Config, caNotAfter: Time, sshKey: Option<Bytes>)

  /** Everything the handlers have asked of the limiter, the store and the counters,
      and the lists they have put in place, in order. */
  datatype History = History(
    calls: seq<RateLimit.Call>,
    ops: seq<Op>,
    incs: seq<Metrics.Inc>,
    puts: seq<Publish.Put>)

  /** There is a VPN CA just when there are VPN profiles. */
  function SetupOf(st: Settings): Publish.Setup {
    Publish.Setup(st.config.configdirEnabled, st.config.profiles != [], st.sshKey)
  }

  function PerHour(st: Settings): real {
    IssueLimit(st.config) as real
  }

  function Capacity(st: Settings): nat {
    if st.config.maxTrackedSessions <= 0 then DEFAULT_MAX_SESSIONS else st.config.maxTrackedSessions
  }

  function KindLabel(kind: Kind): string {
    match kind case Vpn => "vpn" case Ssh => "ssh"
  }

  function IssuedInc(kind: Kind, profile: string): Metrics.Inc {
    Metrics.Inc("gruff_certificates_issued_total", ["kind", KindLabel(kind), "profile", profile])
  }

  function DeniedInc(kind: Kind): Metrics.Inc {
    Metrics.Inc("gruff_authorization_denied_total", ["kind", KindLabel(kind)])
  }

  function RevokedInc(kind: Kind): Metrics.Inc {
    Metrics.Inc("gruff_revocations_total", ["kind", KindLabel(kind)])
  }

  const LIMITED: Metrics.Inc := Metrics.Inc("gruff_rate_limited_total", [])

  const NOT_SIGNED_IN: Metrics.Inc := Metrics.Inc("gruff_sign_in_failures_total", [])

  function GrantFor(c: Config, kind: Kind, name: string): Option<Grant> {
    match kind
    case Vpn => ProfileNamed(c.profiles, name)
    case Ssh => SshProfileNamed(c.sshProfiles, name)
  }

  function Expiry(st: Settings, kind: Kind, now: Time, d: Time): Result<Time> {
    match kind
    case Vpn => VpnExpiry(st.caNotAfter, now, d)
    case Ssh => if st.sshKey.Some? then Ok(SshExpiry(now, d)) else Err("no SSH CA")
  }

  /** rateLimited: without a positive limit there is no limiter. */
  function LimiterReply(st: Settings, h: History, user: string, now: Time): RateLimit.Reply {
    if IssueLimit(st.config) <= 0 then RateLimit.Reply(true, 0)
    else RateLimit.ReplyTo(RateLimit.Sweeping(h.calls, PerHour(st)), PerHour(st), user, now)
  }

  /** The calls a request makes of the limiter, if there is one. */
  function LimiterCalls(st: Settings, user: string, now: Time): seq<RateLimit.Call> {
    if IssueLimit(st.config) <= 0 then [] else [RateLimit.Call(user, now)]
  }

  const NOTHING: History := History([], [], [], [])

  function Append(h: History, more: History): History {
    History(h.calls + more.calls, h.ops + more.ops, h.incs + more.incs, h.puts + more.puts)
  }

  /** handleIssue and handleSSHIssue: authorize, then limit, then issue, then
      record. The first result is what the request adds to the history. */
  function OnIssue(st: Settings, h: History, ev: Event): (History, Status)
    requires ev.Issue?
  {
    var grant := GrantFor(st.config, ev.kind, ev.profile);
    if ev.id.username == "" || !ev.printable || grant.None? then (NOTHING, Forbidden)
    else if !AllowedFor(grant.value.roles, ev.id.roles) then (History([], [], [DeniedInc(ev.kind)], []), Forbidden)
    else
      var calls := LimiterCalls(st, ev.id.username, ev.now);
      var reply := LimiterReply(st, h, ev.id.username, ev.now);
      var expiry := Expiry(st, ev.kind, ev.now, grant.value.duration);
      if !reply.ok then (History(calls, [], [LIMITED], []), TooMany(reply.wait))
      else if expiry.Err? || ev.mint.None? then (History(calls, [], [], []), Failed)
      else
        var session := Session(ev.id.username, ev.profile, ev.kind, ev.mint.value, ev.clientIp, ev.now, expiry.value);
        (History(calls, [AddSession(session, ev.now)], [IssuedInc(ev.kind, ev.profile)], []), Issued(session))
  }

  function ReadOp(id: Identity, now: Time): Op {
    if id.admin then ReadAll(now) else ReadFor(id.username, now)
  }

  /** visibleSessions: all of them for an administrator, otherwise the caller's. */
  function Visible(sessions: seq<Session>, id: Identity): seq<Session> {
    if id.admin then sessions else Filter(sessions, OwnedBy(id.username))
  }

  function FirstWithSerial(sessions: seq<Session>, serial: string): Option<Session> {
    if sessions == [] then None
    else if sessions[0].serial == serial then Some(sessions[0])
    else FirstWithSerial(sessions[1..], serial)
  }

  function VisibleAfterRead(st: Settings, h: History, id: Identity, now: Time): seq<Session> {
    Visible(Run(h.ops + [ReadOp(id, now)], Capacity(st)).sessions, id)
  }

  /** publishRevocations, after some operations of the store. */
  function PublishNow(st: Settings, ops: seq<Op>, now: Time, crl: Publish.Outcome, krl: Publish.Outcome)
    : Publish.Published
  {
    Publish.PublishOnce(SetupOf(st), Run(ops, Capacity(st)), now, crl, krl)
  }

  /** handleRevoke: look the serial up among what the caller can see, record the
      revocation, and publish the lists; that they could not be published is not the
      caller's concern. */
  function OnRevoke(st: Settings, h: History, ev: Event): (History, Status)
    requires ev.RevokeSerial?
  {
    if ev.id.username == "" then (NOTHING, Forbidden)
    else
      var read := ReadOp(ev.id, ev.now);
      match FirstWithSerial(VisibleAfterRead(st, h, ev.id, ev.now), ev.serial)
      case None => (History([], [read], [], []), Forbidden)
      case Some(s) =>
        var ops := [read, AddRevocation(Revocation(s.serial, s.kind, s.user, ev.now, s.expiresAt), ev.now)];
        var p := PublishNow(st, h.ops + ops, ev.now, ev.crlOutcome, ev.krlOutcome);
        (History([], ops + p.asks, [RevokedInc(s.kind)], p.puts), SeeOther)
  }

  /** What collectGauges asks of the store. */
  function GaugeOps(now: Time): seq<Op> {
    [CountTracked(now), ReadRevocations(Vpn, now), ReadRevocations(Ssh, now)]
  }

  /** And what it is told. */
  function GaugesNow(st: Settings, ops: seq<Op>, now: Time): Status {
    var state := Run(ops + [CountTracked(now)], Capacity(st));
    Gauges(|state.sessions|, Capacity(st), |Listed(state, Vpn, now)|, |Listed(state, Ssh, now)|)
  }

  function Respond(st: Settings, h: History, ev: Event): (History, Status) {
    match ev
    case Issue(_, _, _, _, _, _, _) => OnIssue(st, h, ev)
    case RevokeSerial(_, _, _, _, _) => OnRevoke(st, h, ev)
    case ViewIssued(id, now) => (History([], [ReadOp(id, now)], [], []), Page(VisibleAfterRead(st, h, id, now)))
    case PublishLists(crl, krl, now) =>
      var p := PublishNow(st, h.ops, now, crl, krl);
      (History([], p.asks, [], p.puts), PublishedLists(p.ok))
    case Scrape(now) => (History([], GaugeOps(now), [], []), GaugesNow(st, h.ops, now))
    case SignInFailure(_) => (History([], [], [NOT_SIGNED_IN], []), Forbidden)
  }

  function After(st: Settings, h: History, ev: Event): History {
    Append(h, Respond(st, h, ev).0)
  }

  function Serve(st: Settings, events: seq<Event>): History {
    if events == [] then NOTHING
    else After(st, Serve(st, events[..|events| - 1]), events[|events| - 1])
  }

  ghost predicate InOrder(events: seq<Event>) {
    forall i: nat, j: nat | i < j < |events| :: events[i].now <= events[j].now
  }

  // ----- runs are in order -----

  ghost predicate UpTo(h: History, now: Time) {
    && Store.Ordered(h.ops) && (forall i: nat | i < |h.ops| :: h.ops[i].now <= now)
    && RateLimit.Ordered(h.calls) && (forall i: nat | i < |h.calls| :: h.calls[i].at <= now)
  }

  /** Everything a request adds carries its clock reading. */
  lemma RespondsNow(st: Settings, h: History, ev: Event)
    ensures var more := Respond(st, h, ev).0;
            && (forall i: nat | i < |more.ops| :: more.ops[i].now == ev.now)
            && (forall i: nat | i < |more.calls| :: more.calls[i].at == ev.now)
  {
    AsksNow(st, h, ev);
    hide PublishNow, VisibleAfterRead, FirstWithSerial, LimiterReply, GrantFor, AllowedFor, Expiry;
  }

  /** If the request publishes, publishing asks for revocations of the moment. */
  lemma AsksNow(st: Settings, h: History, ev: Event)
    ensures ev.RevokeSerial? ==> forall ops ::
      var asks := PublishNow(st, ops, ev.now, ev.crlOutcome, ev.krlOutcome).asks;
      forall i: nat | i < |asks| :: asks[i].ReadRevocations? && asks[i].now == ev.now
    ensures ev.PublishLists? ==>
      var asks := PublishNow(st, h.ops, ev.now, ev.crlOutcome, ev.krlOutcome).asks;
      forall i: nat | i < |asks| :: asks[i].ReadRevocations? && asks[i].now == ev.now
  {
    hide Publish.PublishOnce;
    if ev.RevokeSerial? {
      forall ops {
        Publish.PublishAsks(SetupOf(st), Run(ops, Capacity(st)), ev.now, ev.crlOutcome, ev.krlOutcome);
      }
    }
    if ev.PublishLists? {
      Publish.PublishAsks(SetupOf(st), Run(h.ops, Capacity(st)), ev.now, ev.crlOutcome, ev.krlOutcome);
    }
  }

  /** Only an issue that goes through adds a session. */
  lemma NotIssued(st: Settings, h: History, ev: Event)
    requires !Respond(st, h, ev).1.Issued?
    ensures Added(Respond(st, h, ev).0.ops) == []
  {
    AsksNow(st, h, ev);
    hide PublishNow, VisibleAfterRead, FirstWithSerial, LimiterReply, GrantFor, AllowedFor, Expiry, Added;
    AddedNone(Respond(st, h, ev).0.ops);
  }

  lemma AfterUpTo(st: Settings, h: History, ev: Event)
    requires UpTo(h, ev.now)
    ensures UpTo(After(st, h, ev), ev.now)
  {
    RespondsNow(st, h, ev);
    hide Respond;
  }

  lemma {:induction false} ServeUpTo(st: Settings, events: seq<Event>, now: Time)
    requires InOrder(events) && forall i: nat | i < |events| :: events[i].now <= now
    ensures UpTo(Serve(st, events), now)
  {
    hide After;
    if events != [] {
      var front, last := events[..|events| - 1], events[|events| - 1];
      assert forall i: nat | i < |front| :: front[i] == events[i];
      ServeUpTo(st, front, last.now);
      AfterUpTo(st, Serve(st, front), last);
    }
  }

  // ----- only the authorized are served -----

  /** What authorize and the checks before it require of an issue request. */
  ghost predicate Authorized(st: Settings, ev: Event) {
    && ev.Issue? && ev.id.username != "" && ev.printable
    && GrantFor(st.config, ev.kind, ev.profile).Some?
    && AllowedFor(GrantFor(st.config, ev.kind, ev.profile).value.roles, ev.id.roles)
  }

  /** The budget is spent by authorized issue requests and nothing else: denied
      requests, views and revocations leave it alone. */
  lemma {:induction false} BudgetIsForTheAuthorized(st: Settings, events: seq<Event>)
    ensures Serve(st, events).calls == AuthorizedCalls(st, events)
  {
    if events != [] {
      hide GrantFor, AllowedFor, LimiterReply, Expiry, VisibleAfterRead, FirstWithSerial;
      BudgetIsForTheAuthorized(st, events[..|events| - 1]);
    }
  }

  ghost function AuthorizedCalls(st: Settings, events: seq<Event>): seq<RateLimit.Call> {
    if events == [] then []
    else
      var last := events[|events| - 1];
      AuthorizedCalls(st, events[..|events| - 1])
      + if Authorized(st, last) then LimiterCalls(st, last.id.username, last.now) else []
  }

  /** The session records the request, which was authorized. */
  ghost predicate IssuedFor(st: Settings, ev: Event, s: Session) {
    && Authorized(st, ev)
    && s.user == ev.id.username && s.kind == ev.kind && s.profile == ev.profile
    && ev.mint == Some(s.serial) && s.clientIp == ev.clientIp && s.issuedAt == ev.now
    && Expiry(st, ev.kind, ev.now, GrantFor(st.config, ev.kind, ev.profile).value.duration) == Ok(s.expiresAt)
  }

  lemma RespondIssuesFor(st: Settings, h: History, ev: Event)
    ensures forall s | s in Added(Respond(st, h, ev).0.ops) :: IssuedFor(st, ev, s)
  {
    var (more, status) := Respond(st, h, ev);
    if status.Issued? {
      AddedOne(status.session, ev.now);
    } else {
      NotIssued(st, h, ev);
    }
  }

  /** Every credential recorded was asked for by its user, in a request whose roles
      the profile grants. */
  lemma {:induction false} EverySessionWasAuthorized(st: Settings, events: seq<Event>, s: Session)
    requires s in Added(Serve(st, events).ops)
    ensures exists i: nat | i < |events| :: IssuedFor(st, events[i], s)
  {
    hide IssuedFor, Respond;
    if events != [] {
      var front, last := events[..|events| - 1], events[|events| - 1];
      var h := Serve(st, front);
      var more := Respond(st, h, last).0;
      AddedConcat(h.ops, more.ops);
      if s in Added(more.ops) {
        RespondIssuesFor(st, h, last);
        assert IssuedFor(st, events[|events| - 1], s);
      } else {
        EverySessionWasAuthorized(st, front, s);
        var i: nat :| i < |front| && IssuedFor(st, front[i], s);
        assert events[i] == front[i];
      }
    }
  }

  // ----- no live credential is forgotten -----

  /** The key's sessions issued between two times. */
  function IssuedBetween(user: string, from: Time, until: Time): Session -> bool {
    (s: Session) => s.user == user && from <= s.issuedAt <= until
  }

  lemma {:induction false} AddedConcat(a: seq<Op>, b: seq<Op>)
    ensures Added(a + b) == Added(b) + Added(a)
    decreases |b|
  {
    if b == [] {
      assert a + b == a;
    } else {
      var front, last := b[..|b| - 1], b[|b| - 1];
      assert (a + b)[..|a + b| - 1] == a + front && (a + b)[|a + b| - 1] == last;
      AddedConcat(a, front);
      Associative(if last.AddSession? then [last.session] else [], Added(front), Added(a));
    }
  }

  lemma {:induction false} BetweenPrefix(calls: seq<RateLimit.Call>, more: seq<RateLimit.Call>, perHour: real,
                                         key: string, from: Time, until: Time, n: nat)
    requires perHour > 0.0 && n <= |calls|
    ensures RateLimit.AllowedBetween(calls + more, perHour, key, from, until, n)
         == RateLimit.AllowedBetween(calls, perHour, key, from, until, n)
  {
    if n > 0 {
      BetweenPrefix(calls, more, perHour, key, from, until, n - 1);
      assert (calls + more)[..n - 1] == calls[..n - 1];
    }
  }

  lemma {:induction false} AddedNone(ops: seq<Op>)
    requires forall i: nat | i < |ops| :: !ops[i].AddSession?
    ensures Added(ops) == []
  {
    if ops != [] {
      AddedNone(ops[..|ops| - 1]);
    }
  }

  lemma AddedOne(s: Session, now: Time)
    ensures Added([AddSession(s, now)]) == [s]
  {
    assert [AddSession(s, now)][..0] == [];
    assert Added([]) == [];
  }

  /** The session is one this request was allowed to be issued. */
  predicate Allowed(st: Settings, h: History, ev: Event, more: History, s: Session) {
    && ev.Issue? && s.user == ev.id.username && s.issuedAt == ev.now
    && more.calls == LimiterCalls(st, s.user, ev.now)
    && LimiterReply(st, h, s.user, ev.now).ok
  }

  /** A request adds a session only if it is an issue the limiter allows, and then
      just the one, stamped with its user and clock reading. */
  lemma RespondAdds(st: Settings, h: History, ev: Event)
    ensures var more := Respond(st, h, ev).0;
            Added(more.ops) == [] || (|Added(more.ops)| == 1 && Allowed(st, h, ev, more, Added(more.ops)[0]))
  {
    var (more, status) := Respond(st, h, ev);
    if status.Issued? {
      AddedOne(status.session, ev.now);
    } else {
      NotIssued(st, h, ev);
    }
  }

  /** What one request adds to the sessions is matched by an allowed call. */
  lemma RespondIssues(st: Settings, h: History, ev: Event, user: string, from: Time, until: Time)
    requires IssueLimit(st.config) > 0
    ensures var more := Respond(st, h, ev).0;
            var calls := h.calls + more.calls;
            |Filter(Added(more.ops), IssuedBetween(user, from, until))|
              + RateLimit.AllowedBetween(h.calls, PerHour(st), user, from, until, |h.calls|)
              <= RateLimit.AllowedBetween(calls, PerHour(st), user, from, until, |calls|)
  {
    RespondAdds(st, h, ev);
    RespondCalls(st, h, ev);
    hide Respond;
    var more := Respond(st, h, ev).0;
    var calls := h.calls + more.calls;
    BetweenPrefix(h.calls, more.calls, PerHour(st), user, from, until, |h.calls|);
    if more.calls == [] {
      assert calls == h.calls;
      assert Added(more.ops) == [];
    } else {
      assert |calls| == |h.calls| + 1 && calls[..|h.calls|] == h.calls;
      RateLimit.AllowedIsReplied(calls, PerHour(st), |h.calls|);
    }
  }

  lemma RespondCalls(st: Settings, h: History, ev: Event)
    ensures |Respond(st, h, ev).0.calls| <= 1
  {
  }

  /** Sessions issued to a user in an interval never outnumber the limiter's
      allowed calls in it, across both kinds of credential. */
  lemma {:induction false} IssuedWithinAllowed(st: Settings, events: seq<Event>, user: string, from: Time, until: Time)
    requires IssueLimit(st.config) > 0
    ensures var h := Serve(st, events);
            |Filter(Added(h.ops), IssuedBetween(user, from, until))|
              <= RateLimit.AllowedBetween(h.calls, PerHour(st), user, from, until, |h.calls|)
  {
    hide Respond;
    if events != [] {
      var front, last := events[..|events| - 1], events[|events| - 1];
      var h := Serve(st, front);
      var more := Respond(st, h, last).0;
      IssuedWithinAllowed(st, front, user, from, until);
      RespondIssues(st, h, last, user, from, until);
      AddedConcat(h.ops, more.ops);
      FilterConcat(Added(more.ops), Added(h.ops), IssuedBetween(user, from, until));
    }
  }

  lemma {:induction false} FilterFewer<T>(s: seq<T>, p: T -> bool, q: T -> bool)
    requires forall x | x in s && p(x) :: q(x)
    ensures |Filter(s, p)| <= |Filter(s, q)|
  {
    if s != [] {
      FilterFewer(s[1..], p, q);
    }
  }

  lemma {:induction false} FilterBoth<T>(s: seq<T>, p: T -> bool, q: T -> bool, both: T -> bool)
    requires forall x | x in s :: both(x) <==> p(x) && q(x)
    ensures Filter(Filter(s, p), q) == Filter(s, both)
  {
    if s != [] {
      FilterBoth(s[1..], p, q, both);
      if p(s[0]) {
        assert Filter(s, p)[1..] == Filter(s[1..], p);
      }
    }
  }

  function NotOwnedBy(user: string): Session -> bool {
    (s: Session) => s.user != user
  }

  lemma {:induction false} SplitByUser(s: seq<Session>, user: string)
    ensures |s| == |Filter(s, OwnedBy(user))| + |Filter(s, NotOwnedBy(user))|
  {
    if s != [] {
      SplitByUser(s[1..], user);
    }
  }

  lemma OneMore(bound: nat, n: nat, m: nat)
    requires m == n + 1
    ensures bound * m == bound * n + bound
  {
  }

  ghost predicate AtMostEach(s: seq<Session>, users: set<string>, bound: nat) {
    && (forall x | x in s :: x.user in users)
    && (forall u | u in users :: |Filter(s, OwnedBy(u))| <= bound)
  }

  lemma WithoutUser(s: seq<Session>, users: set<string>, u: string, bound: nat)
    requires AtMostEach(s, users, bound) && u in users
    ensures AtMostEach(Filter(s, NotOwnedBy(u)), users - {u}, bound)
    ensures |s| <= |Filter(s, NotOwnedBy(u))| + bound
  {
    var rest := Filter(s, NotOwnedBy(u));
    SplitByUser(s, u);
    forall x | x in rest ensures x.user in users - {u} {
      FilterMembers(s, NotOwnedBy(u), x);
    }
    forall v | v in users - {u} ensures |Filter(rest, OwnedBy(v))| <= bound {
      FilterBoth(s, NotOwnedBy(u), OwnedBy(v), OwnedBy(v));
    }
  }

  lemma FirstUser(s: seq<Session>, users: set<string>, bound: nat)
    requires AtMostEach(s, users, bound) && s != []
    ensures s[0].user in users
  {
    assert s[0] in s;
  }

  /** If each user has at most so many, all the users together have at most that
      many each. */
  lemma {:induction false} CountByUser(s: seq<Session>, users: set<string>, bound: nat)
    requires AtMostEach(s, users, bound)
    ensures |s| <= bound * |users|
    decreases |users|
  {
    hide AtMostEach, Filter;
    if users == {} {
      if s != [] {
        FirstUser(s, users, bound);
      }
    } else {
      var u :| u in users;
      var rest := users - {u};
      WithoutUser(s, users, u, bound);
      CountByUser(Filter(s, NotOwnedBy(u)), rest, bound);
      assert |rest| + 1 == |users|;
      OneMore(bound, |rest|, |users|);
    }
  }

  /** What every issued session has: a user who asked, and an expiry within a day
      of issue. */
  ghost predicate WellIssued(s: Session, users: set<string>) {
    s.user in users && s.expiresAt <= s.issuedAt + DAY
  }

  lemma RespondWellIssued(st: Settings, h: History, ev: Event, users: set<string>)
    requires Accepted(st.config) && (ev.Issue? ==> ev.id.username in users)
    ensures forall s | s in Added(Respond(st, h, ev).0.ops) :: WellIssued(s, users) && s.issuedAt == ev.now
  {
    var (more, status) := Respond(st, h, ev);
    if status.Issued? {
      AddedOne(status.session, ev.now);
      LookupBounds(st.config.profiles, ev.profile);
      SshLookupBounds(st.config.sshProfiles, ev.profile);
      VpnExpiryBounds(st.caNotAfter, ev.now, GrantFor(st.config, ev.kind, ev.profile).value.duration);
    } else {
      NotIssued(st, h, ev);
    }
  }

  ghost predicate Requested(events: seq<Event>, users: set<string>) {
    forall i: nat | i < |events| && events[i].Issue? :: events[i].id.username in users
  }

  /** Everything issued was issued by the last prune of the list, since issuing
      prunes it. */
  lemma {:induction false} ServeWellIssued(st: Settings, events: seq<Event>, users: set<string>)
    requires Accepted(st.config) && InOrder(events) && Requested(events, users)
    ensures forall s | s in Added(Serve(st, events).ops) ::
      WellIssued(s, users) && s.issuedAt <= LastPrune(Serve(st, events).ops)
  {
    hide Respond, WellIssued;
    if events != [] {
      var front, last := events[..|events| - 1], events[|events| - 1];
      var h := Serve(st, front);
      var more := Respond(st, h, last).0;
      assert forall i: nat | i < |front| :: front[i] == events[i];
      ServeWellIssued(st, front, users);
      ServeUpTo(st, front, last.now);
      RespondWellIssued(st, h, last, users);
      RespondPrunes(st, h, last);
      AddedConcat(h.ops, more.ops);
      LastPruneConcat(h.ops, more.ops, last.now);
      LastPruneBound(h.ops, last.now);
    }
  }

  lemma {:induction false} LastPruneConcat(a: seq<Op>, b: seq<Op>, now: Time)
    requires forall i: nat | i < |b| :: b[i].now == now
    ensures LastPrune(a + b) == if exists i: nat :: i < |b| && b[i].Prunes() then now else LastPrune(a)
    decreases |b|
  {
    if b == [] {
      assert a + b == a;
    } else {
      var front := b[..|b| - 1];
      assert (a + b)[..|a + b| - 1] == a + front;
      assert forall i: nat | i < |front| :: front[i] == b[i];
      LastPruneConcat(a, front, now);
      if !b[|b| - 1].Prunes() && exists i: nat :: i < |b| && b[i].Prunes() {
        var i: nat :| i < |b| && b[i].Prunes();
        assert front[i].Prunes();
      }
    }
  }

  lemma RespondPrunes(st: Settings, h: History, ev: Event)
    ensures var more := Respond(st, h, ev).0;
            && (forall i: nat | i < |more.ops| :: more.ops[i].now == ev.now)
            && (Added(more.ops) != [] ==> exists i: nat :: i < |more.ops| && more.ops[i].Prunes())
  {
    var (more, status) := Respond(st, h, ev);
    RespondsNow(st, h, ev);
    hide PublishNow, VisibleAfterRead, FirstWithSerial, LimiterReply, GrantFor, AllowedFor, Expiry, Added;
    if status.Issued? {
      assert more.ops[0].Prunes();
    } else {
      NotIssued(st, h, ev);
    }
  }

  lemma DayOfTokens(perHour: real)
    requires perHour > 0.0
    ensures RateLimit.Refill(perHour, DAY) == 24.0 * perHour
  {
    RateLimit.RefillFacts(perHour, HOUR, 0);
    assert RateLimit.Seconds(DAY) == 86400.0;
  }

  /** The live sessions of one user never number more than 25 hours' worth: a full
      burst and a day of refill. */
  lemma LivePerUser(st: Settings, events: seq<Event>, users: set<string>, user: string, now: Time)
    requires Accepted(st.config) && InOrder(events) && Requested(events, users)
    requires IssueLimit(st.config) > 0
    requires now >= LastPrune(Serve(st, events).ops)
    ensures |Filter(Live(Added(Serve(st, events).ops), now), OwnedBy(user))| <= 25 * IssueLimit(st.config)
  {
    var h := Serve(st, events);
    var added := Added(h.ops);
    var perHour := PerHour(st);
    ServeWellIssued(st, events, users);
    IssuedWithinAllowed(st, events, user, now - DAY, now);
    LiveWithinDay(added, users, user, now);
    var last := if events == [] then now else events[|events| - 1].now;
    ServeUpTo(st, events, last);
    hide Serve, Added, Live;
    RateLimit.WindowBound(h.calls, perHour, user, now - DAY, now, |h.calls|);
    DayOfTokens(perHour);
  }

  lemma LiveWithinDay(added: seq<Session>, users: set<string>, user: string, now: Time)
    requires forall s | s in added :: WellIssued(s, users) && s.issuedAt <= now
    ensures |Filter(Live(added, now), OwnedBy(user))| <= |Filter(added, IssuedBetween(user, now - DAY, now))|
  {
    var both := (s: Session) => !s.Expired(now) && s.user == user;
    FilterBoth(added, Unexpired(now), OwnedBy(user), both);
    FilterFewer(added, both, IssuedBetween(user, now - DAY, now));
  }

  /** No live credential is forgotten. In every run over an accepted configuration
      with a positive hourly limit, at most so many users asking, and room for 25
      times the limit for each of them, the list is everything ever issued that
      was live when it was last pruned: nothing has been evicted. */
  lemma NoForgottenCredential(st: Settings, events: seq<Event>, users: set<string>)
    requires Accepted(st.config) && InOrder(events) && Requested(events, users)
    requires IssueLimit(st.config) > 0
    requires Capacity(st) >= 25 * IssueLimit(st.config) * |users|
    ensures var ops := Serve(st, events).ops;
            Run(ops, Capacity(st)).sessions == Live(Added(ops), LastPrune(ops))
  {
    var h := Serve(st, events);
    var now := LastPrune(h.ops);
    var live := Live(Added(h.ops), now);
    ServeWellIssued(st, events, users);
    forall x | x in live ensures x.user in users {
      FilterMembers(Added(h.ops), Unexpired(now), x);
    }
    forall u | u in users ensures |Filter(live, OwnedBy(u))| <= 25 * IssueLimit(st.config) {
      LivePerUser(st, events, users, u, now);
    }
    CountByUser(live, users, 25 * IssueLimit(st.config));
    var last := if events == [] then now else events[|events| - 1].now;
    ServeUpTo(st, events, last);
    StreamingEqualsBatch(h.ops, Capacity(st));
  }

  // ----- who can revoke -----

  lemma {:induction false} FirstWithSerialFinds(sessions: seq<Session>, serial: string)
    ensures var found := FirstWithSerial(sessions, serial);
            && (found.Some? <==> exists s | s in sessions :: s.serial == serial)
            && (found.Some? ==> found.value in sessions && found.value.serial == serial)
  {
    if sessions != [] {
      FirstWithSerialFinds(sessions[1..], serial);
    }
  }

  /** What a read at now shows: the best of everything ever issued and unexpired. */
  lemma ReadShowsBest(st: Settings, events: seq<Event>, id: Identity, now: Time)
    requires InOrder(events) && forall i: nat | i < |events| :: events[i].now <= now
    ensures var h := Serve(st, events);
            VisibleAfterRead(st, h, id, now) == Visible(Best(Live(Added(h.ops), now), Capacity(st)), id)
  {
    var h := Serve(st, events);
    var ops := h.ops + [ReadOp(id, now)];
    ServeUpTo(st, events, now);
    hide Serve;
    assert ops[..|h.ops|] == h.ops && ops[|h.ops|] == ReadOp(id, now);
    StreamingEqualsBatch(ops, Capacity(st));
    assert Added(ops) == [] + Added(h.ops) == Added(h.ops);
  }

  /** Who can revoke. After any run an administrator's request to revoke succeeds
      exactly when the serial is among the max longest-lived unexpired credentials
      ever issued; anyone else's, exactly when it is their own as well. */
  lemma WhoCanRevoke(st: Settings, events: seq<Event>, id: Identity, serial: string,
                     crl: Publish.Outcome, krl: Publish.Outcome, now: Time)
    requires InOrder(events) && forall i: nat | i < |events| :: events[i].now <= now
    ensures var h := Serve(st, events);
            Respond(st, h, RevokeSerial(id, serial, crl, krl, now)).1 == SeeOther
            <==> id.username != ""
                 && exists s | s in Best(Live(Added(h.ops), now), Capacity(st)) ::
                      s.serial == serial && (id.admin || s.user == id.username)
  {
    var h := Serve(st, events);
    var best := Best(Live(Added(h.ops), now), Capacity(st));
    ReadShowsBest(st, events, id, now);
    var visible := Visible(best, id);
    FirstWithSerialFinds(visible, serial);
    forall s ensures s in visible <==> s in best && (id.admin || s.user == id.username) {
      FilterMembers(best, OwnedBy(id.username), s);
    }
  }

  /** With the capacity above, every user can revoke every credential of theirs
      that is still live, for as long as it is. */
  lemma EveryLiveCredentialIsRevocable(st: Settings, events: seq<Event>, users: set<string>,
                                       id: Identity, s: Session, crl: Publish.Outcome, krl: Publish.Outcome,
                                       now: Time)
    requires Accepted(st.config) && InOrder(events) && Requested(events, users)
    requires forall i: nat | i < |events| :: events[i].now <= now
    requires IssueLimit(st.config) > 0
    requires Capacity(st) >= 25 * IssueLimit(st.config) * |users|
    requires s in Added(Serve(st, events).ops) && !s.Expired(now)
    requires id.username != "" && (id.admin || s.user == id.username)
    ensures Respond(st, Serve(st, events), RevokeSerial(id, s.serial, crl, krl, now)).1 == SeeOther
  {
    var later := events + [ViewIssued(id, now)];
    var h, h' := Serve(st, events), Serve(st, later);
    ServeRead(st, events, id, now);
    hide Serve, OnIssue, OnRevoke;
    assert forall i: nat | i < |later| :: later[i].now <= now;
    NoForgottenCredential(st, later, users);
    ServeUpTo(st, later, now);
    StreamingEqualsBatch(h'.ops, Capacity(st));
    FilterMembers(Added(h.ops), Unexpired(now), s);
    WhoCanRevoke(st, events, id, s.serial, crl, krl, now);
  }

  lemma ServeRead(st: Settings, events: seq<Event>, id: Identity, now: Time)
    ensures var h, h' := Serve(st, events), Serve(st, events + [ViewIssued(id, now)]);
            h'.ops == h.ops + [ReadOp(id, now)] && LastPrune(h'.ops) == now && Added(h'.ops) == Added(h.ops)
  {
    var later := events + [ViewIssued(id, now)];
    assert later[..|events|] == events;
    var h, h' := Serve(st, events), Serve(st, later);
    hide Serve;
    assert h'.ops[..|h.ops|] == h.ops;
    assert [] + Added(h.ops) == Added(h.ops);
  }

  // ----- the class -----

  lemma RunOne(ops: seq<Op>, op: Op, max: nat)
    ensures Run(ops + [op], max) == Step(Run(ops, max), op, max)
  {
    assert (ops + [op])[..|ops|] == ops;
  }

  lemma TallyOne(incs: seq<Metrics.Inc>, inc: Metrics.Inc)
    ensures Metrics.Tally(incs + [inc]) == Metrics.Incremented(Metrics.Tally(incs), inc)
  {
    assert (incs + [inc])[..|incs|] == incs;
  }

  lemma SweepingOne(calls: seq<RateLimit.Call>, c: RateLimit.Call, perHour: real)
    ensures RateLimit.Sweeping(calls + [c], perHour)
         == RateLimit.Swept(RateLimit.Served(RateLimit.Sweeping(calls, perHour), perHour, c.key, c.at), c.at)
  {
    assert (calls + [c])[..|calls|] == calls;
  }

  /** What may come next while the portal runs: the refresher's tick, or a request,
      with how writing the two files would go. */
  datatype Arrival =
    | Tick(crlTry: Refresh.Try, krlTry: Refresh.Try, now: Time)
    | Request(ev: Event, crlTry: Refresh.Try, krlTry: Refresh.Try)

  /** How a write ends by its first fault; a suffix that is taken leaves the file as it
      was whatever else would have happened. */
  predicate EndsAs(t: Refresh.Try, outcome: Publish.Outcome) {
    || outcome == Publish.Untouched
    || (outcome == Publish.Done && t.fault.NoFault?)
    || (outcome == Publish.Unsynced && t.fault.AtSyncDir?)
  }

  /** The event an arrival turns into. */
  predicate BecomesEvent(a: Arrival, ev: Event) {
    match a
    case Tick(crlTry, krlTry, now) =>
      ev.PublishLists? && ev.now == now && EndsAs(crlTry, ev.crlOutcome) && EndsAs(krlTry, ev.krlOutcome)
    case Request(asked, crlTry, krlTry) =>
      match asked
      case RevokeSerial(id, serial, _, _, now) =>
        && ev.RevokeSerial? && ev.id == id && ev.serial == serial && ev.now == now
        && EndsAs(crlTry, ev.crlOutcome) && EndsAs(krlTry, ev.krlOutcome)
      case PublishLists(_, _, now) =>
        ev.PublishLists? && ev.now == now && EndsAs(crlTry, ev.crlOutcome) && EndsAs(krlTry, ev.krlOutcome)
      case _ => ev == asked
  }

  /** The event with the outcomes its writes turn out to have. */
  function WithOutcomes(asked: Event, crl: Publish.Outcome, krl: Publish.Outcome): Event {
    match asked
    case RevokeSerial(id, serial, _, _, now) => RevokeSerial(id, serial, crl, krl, now)
    case PublishLists(_, _, now) => PublishLists(crl, krl, now)
    case _ => asked
  }

  lemma BecomesWithOutcomes(asked: Event, crlTry: Refresh.Try, krlTry: Refresh.Try,
                            crl: Publish.Outcome, krl: Publish.Outcome)
    requires EndsAs(crlTry, crl) && EndsAs(krlTry, krl)
    ensures BecomesEvent(Request(asked, crlTry, krlTry), WithOutcomes(asked, crl, krl))
  {
    hide EndsAs;
  }

  lemma OutcomeEnds(s: AtomicFile.System, t: Refresh.Try)
    ensures EndsAs(t, Refresh.OutcomeOf(s, t))
  {
  }

  lemma ServeOne(st: Settings, events: seq<Event>, ev: Event)
    ensures Serve(st, events + [ev]) == After(st, Serve(st, events), ev)
  {
    assert (events + [ev])[..|events|] == events;
  }

  lemma DisabledPublishesNothing(st: Settings, h: History, ev: Event)
    requires ev.PublishLists? && !st.config.configdirEnabled
    ensures After(st, h, ev) == h
  {
  }

  lemma NoHistory(max: nat, perHour: real)
    ensures Run([], max) == State([], []) && Metrics.Tally([]) == map[] && RateLimit.Sweeping([], perHour) == map[]
  {
  }

  /** The running portal. Its limiter, store and counters are always the state the
      history of requests leads to. */
  class Portal {
    const st: Settings
    const limiter: RateLimit.Limiter?
    const sessions: MemoryStore
    const metrics: Exposition.Registry
    const publisher: Refresh.Publisher
    ghost var h: History
    ghost var Repr: set<object>

    ghost function Parts(): set<object>
      reads this, sessions
    {
      {this, sessions, sessions.buf, metrics, publisher, publisher.crlFile, publisher.krlFile}
    }

    ghost predicate Owned()
      reads this, sessions, limiter
    {
      && Parts() <= Repr
      && (limiter != null ==> limiter.Repr <= Repr && Parts() !! limiter.Repr)
    }

    /** The limiter, if there is one, has answered these calls. */
    ghost predicate LimiterIs(calls: seq<RateLimit.Call>)
      reads limiter, if limiter == null then {} else limiter.Repr
    {
      && (limiter == null <==> IssueLimit(st.config) <= 0)
      && (limiter == null ==> calls == [])
      && (limiter != null ==>
          limiter.Valid() && limiter.perHour == PerHour(st)
          && limiter.Abstract() == RateLimit.Sweeping(calls, PerHour(st)))
    }

    ghost predicate StoreIs(ops: seq<Op>)
      reads sessions, sessions.buf
    {
      && sessions.Valid() && sessions.Limit() == Capacity(st)
      && sessions.Abstract() == Run(ops, Capacity(st))
    }

    ghost predicate CountersAre(incs: seq<Metrics.Inc>)
      reads metrics
    {
      metrics.counts == Metrics.Tally(incs)
    }

    ghost predicate FilesAre(puts: seq<Publish.Put>)
      reads publisher, publisher.crlFile, publisher.krlFile
    {
      && publisher.setup == SetupOf(st) && publisher.store == sessions
      && publisher.Files() && publisher.puts == puts
    }

    ghost predicate Valid()
      reads this, Repr, sessions, limiter
    {
      Owned() && LimiterIs(h.calls) && StoreIs(h.ops) && CountersAre(h.incs) && FilesAre(h.puts)
    }

    /** A portal over parts that have served nothing yet. */
    constructor (st: Settings, limiter: RateLimit.Limiter?, sessions: MemoryStore, metrics: Exposition.Registry,
                 publisher: Refresh.Publisher)
      requires limiter == null <==> IssueLimit(st.config) <= 0
      requires limiter != null ==>
        limiter.Valid() && limiter.perHour == PerHour(st) && limiter.Abstract() == map[]
        && {sessions, sessions.buf, metrics, publisher, publisher.crlFile, publisher.krlFile} !! limiter.Repr
      requires sessions.Valid() && sessions.Limit() == Capacity(st) && sessions.Abstract() == State([], [])
      requires metrics.counts == map[]
      requires publisher.setup == SetupOf(st) && publisher.store == sessions
      requires publisher.Files() && publisher.puts == []
      ensures Valid() && h == NOTHING && this.st == st
      ensures Repr == {this, sessions, sessions.buf, metrics, publisher, publisher.crlFile, publisher.krlFile}
                      + if limiter == null then {} else limiter.Repr
    {
      hide Run, Metrics.Tally, RateLimit.Sweeping, RateLimit.Limiter.Valid, Refresh.Publisher.Files;
      hide Capacity, PerHour, IssueLimit, SetupOf;
      NoHistory(Capacity(st), PerHour(st));
      this.st, this.limiter, this.sessions, this.metrics, this.publisher := st, limiter, sessions, metrics, publisher;
      h := NOTHING;
      Repr := {this, sessions, sessions.buf, metrics, publisher, publisher.crlFile, publisher.krlFile}
        + if limiter == null then {} else limiter.Repr;
    }

    method Count(inc: Metrics.Inc)
      requires Valid()
      modifies this`h, metrics
      ensures Valid()
      ensures h == old(h).(incs := old(h).incs + [inc])
    {
      TallyOne(h.incs, inc);
      hide Metrics.Tally, Metrics.Incremented, LimiterIs, StoreIs, FilesAre;
      metrics.Inc(inc.name, inc.labels);
      h := h.(incs := h.incs + [inc]);
    }

    method Allow(user: string, now: Time) returns (ok: bool, wait: Time)
      requires Valid()
      modifies this`h, this`Repr, if limiter == null then {} else limiter.Repr
      ensures Valid() && fresh(Repr - old(Repr))
      ensures RateLimit.Reply(ok, wait) == LimiterReply(st, old(h), user, now)
      ensures h == old(h).(calls := old(h).calls + LimiterCalls(st, user, now))
    {
      hide StoreIs, CountersAre, FilesAre, IssueLimit;
      hide RateLimit.Sweeping, RateLimit.Swept, RateLimit.Served, RateLimit.ReplyTo;
      if limiter == null {
        return true, 0;
      }
      SweepingOne(h.calls, RateLimit.Call(user, now), PerHour(st));
      ok, wait := limiter.Allow(user, now);
      Repr := Repr + limiter.Repr;
      h := h.(calls := h.calls + [RateLimit.Call(user, now)]);
    }

    method Record(session: Session, now: Time)
      requires Valid()
      modifies this`h, this`Repr, sessions, sessions.buf
      ensures Valid() && fresh(Repr - old(Repr))
      ensures h == old(h).(ops := old(h).ops + [AddSession(session, now)])
    {
      RunOne(h.ops, AddSession(session, now), Capacity(st));
      hide Step, Run, LimiterIs, CountersAre, FilesAre;
      sessions.Add(session, now);
      Repr := Repr + {sessions.buf};
      h := h.(ops := h.ops + [AddSession(session, now)]);
    }

    method Revoke(r: Revocation, now: Time)
      requires Valid()
      modifies this`h, sessions`revoked
      ensures Valid()
      ensures h == old(h).(ops := old(h).ops + [AddRevocation(r, now)])
    {
      RunOne(h.ops, AddRevocation(r, now), Capacity(st));
      hide Step, Run, LimiterIs, CountersAre, FilesAre;
      sessions.Revoke(r, now);
      h := h.(ops := h.ops + [AddRevocation(r, now)]);
    }

    /** visibleSessions. */
    method Show(id: Identity, now: Time) returns (visible: seq<Session>)
      requires Valid()
      modifies this`h, sessions`len, sessions.buf
      ensures Valid()
      ensures h == old(h).(ops := old(h).ops + [ReadOp(id, now)])
      ensures visible == VisibleAfterRead(st, old(h), id, now)
    {
      RunOne(h.ops, ReadOp(id, now), Capacity(st));
      hide Step, Run, Filter, Capacity, LimiterIs, CountersAre, FilesAre;
      if id.admin {
        visible := sessions.All(now);
      } else {
        visible := sessions.For(id.username, now);
      }
      h := h.(ops := h.ops + [ReadOp(id, now)]);
    }

    ghost function CrlOutcome(t: Refresh.Try): Publish.Outcome
      reads publisher.crlFile
    {
      Refresh.OutcomeOf(publisher.crlFile.sys, t)
    }

    ghost function KrlOutcome(t: Refresh.Try): Publish.Outcome
      reads publisher.krlFile
    {
      Refresh.OutcomeOf(publisher.krlFile.sys, t)
    }

    /** publishRevocations. */
    method PublishFiles(crlTry: Refresh.Try, krlTry: Refresh.Try, now: Time) returns (ok: bool)
      requires Valid()
      modifies this`h, publisher`puts, publisher.crlFile, publisher.krlFile, sessions`revoked
      ensures Valid()
      ensures var p := PublishNow(st, old(h).ops, now, old(CrlOutcome(crlTry)), old(KrlOutcome(krlTry)));
              ok == p.ok && h == old(h).(ops := old(h).ops + p.asks, puts := old(h).puts + p.puts)
    {
      hide Run, Steps, LimiterIs, CountersAre, Publish.PublishOnce, AtomicFile.Inv, AtomicFile.Idle, AtomicFile.Read;
      ghost var p := PublishNow(st, h.ops, now, CrlOutcome(crlTry), KrlOutcome(krlTry));
      RunConcat(h.ops, p.asks, Capacity(st));
      ok := publisher.PublishRevocations(now, crlTry, krlTry);
      h := h.(ops := h.ops + p.asks, puts := h.puts + p.puts);
    }

    method Tracked(now: Time) returns (held: nat, limit: nat)
      requires Valid()
      modifies this`h, sessions`len, sessions.buf
      ensures Valid()
      ensures h == old(h).(ops := old(h).ops + [CountTracked(now)])
      ensures held == |Run(h.ops, Capacity(st)).sessions| && limit == Capacity(st)
    {
      RunOne(h.ops, CountTracked(now), Capacity(st));
      hide Step, Run, LimiterIs, CountersAre, FilesAre;
      held, limit := sessions.Tracked(now);
      h := h.(ops := h.ops + [CountTracked(now)]);
    }

    /** How many revocations of a kind are active. */
    method Active(kind: Kind, now: Time) returns (n: nat)
      requires Valid()
      modifies this`h, sessions`revoked
      ensures Valid()
      ensures h == old(h).(ops := old(h).ops + [ReadRevocations(kind, now)])
      ensures n == |Listed(Run(old(h).ops, Capacity(st)), kind, now)|
      ensures Listed(Run(h.ops, Capacity(st)), Vpn, now) == Listed(Run(old(h).ops, Capacity(st)), Vpn, now)
      ensures Listed(Run(h.ops, Capacity(st)), Ssh, now) == Listed(Run(old(h).ops, Capacity(st)), Ssh, now)
    {
      hide Step, Run, Listed, Capacity, LimiterIs, CountersAre, FilesAre;
      RunOne(h.ops, ReadRevocations(kind, now), Capacity(st));
      Refresh.ListedAfterRead(Run(h.ops, Capacity(st)), kind, Vpn, now, now, Capacity(st));
      Refresh.ListedAfterRead(Run(h.ops, Capacity(st)), kind, Ssh, now, now, Capacity(st));
      var entries := sessions.Revocations(kind, now);
      h := h.(ops := h.ops + [ReadRevocations(kind, now)]);
      return |entries|;
    }

    /** handleIssue. */
    method HandleIssue(id: Identity, printable: bool, profile: string, mint: Option<string>, ip: string, now: Time)
      returns (status: Status)
      requires Valid()
      modifies Repr
      ensures Valid() && fresh(Repr - old(Repr))
      ensures var ev := Issue(Vpn, id, printable, profile, mint, ip, now);
              status == Respond(st, old(h), ev).1 && h == After(st, old(h), ev)
    {
      hide LimiterIs, StoreIs, CountersAre, FilesAre, LimiterReply, LimiterCalls, BoundedExpiry, AllowedFor;
      hide ProfileNamed, SshProfileNamed, VisibleAfterRead, FirstWithSerial, PublishNow, GaugesNow;
      if id.username == "" || !printable {
        return Forbidden;
      }
      var grant := ProfileNamed(st.config.profiles, profile);
      if grant.None? {
        return Forbidden;
      }
      if !AllowedFor(grant.value.roles, id.roles) {
        Count(DeniedInc(Vpn));
        return Forbidden;
      }
      var ok, wait := Allow(id.username, now);
      if !ok {
        Count(LIMITED);
        return TooMany(wait);
      }
      var notAfter := VpnExpiry(st.caNotAfter, now, grant.value.duration);
      if notAfter.Err? || mint.None? {
        return Failed;
      }
      var session := Session(id.username, profile, Vpn, mint.value, ip, now, notAfter.value);
      Record(session, now);
      Count(IssuedInc(Vpn, profile));
      return Issued(session);
    }

    /** handleSSHIssue: the same limiter and store, and a CA that may be missing. */
    method HandleSshIssue(id: Identity, printable: bool, profile: string, mint: Option<string>, ip: string, now: Time)
      returns (status: Status)
      requires Valid()
      modifies Repr
      ensures Valid() && fresh(Repr - old(Repr))
      ensures var ev := Issue(Ssh, id, printable, profile, mint, ip, now);
              status == Respond(st, old(h), ev).1 && h == After(st, old(h), ev)
    {
      hide LimiterIs, StoreIs, CountersAre, FilesAre, LimiterReply, LimiterCalls, BoundedExpiry, AllowedFor;
      hide ProfileNamed, SshProfileNamed, VisibleAfterRead, FirstWithSerial, PublishNow, GaugesNow;
      if id.username == "" || !printable {
        return Forbidden;
      }
      var grant := SshProfileNamed(st.config.sshProfiles, profile);
      if grant.None? {
        return Forbidden;
      }
      if !AllowedFor(grant.value.roles, id.roles) {
        Count(DeniedInc(Ssh));
        return Forbidden;
      }
      var ok, wait := Allow(id.username, now);
      if !ok {
        Count(LIMITED);
        return TooMany(wait);
      }
      if st.sshKey.None? || mint.None? {
        return Failed;
      }
      var session := Session(id.username, profile, Ssh, mint.value, ip, now, SshExpiry(now, grant.value.duration));
      Record(session, now);
      Count(IssuedInc(Ssh, profile));
      return Issued(session);
    }

    /** handleRevoke. The lists are published at the end; an error there is logged and
        changes nothing in the reply. */
    method HandleRevoke(id: Identity, serial: string, crlTry: Refresh.Try, krlTry: Refresh.Try, now: Time)
      returns (status: Status)
      requires Valid()
      modifies Repr
      ensures Valid() && Repr == old(Repr)
      ensures var ev := RevokeSerial(id, serial, old(CrlOutcome(crlTry)), old(KrlOutcome(krlTry)), now);
              status == Respond(st, old(h), ev).1 && h == After(st, old(h), ev)
    {
      hide LimiterIs, StoreIs, CountersAre, FilesAre, VisibleAfterRead, FirstWithSerial, CrlOutcome, KrlOutcome;
      hide PublishNow;
      if id.username == "" {
        return Forbidden;
      }
      var visible := Show(id, now);
      var found := FirstWithSerial(visible, serial);
      if found.None? {
        return Forbidden;
      }
      var s := found.value;
      var r := Revocation(s.serial, s.kind, s.user, now, s.expiresAt);
      Revoke(r, now);
      Count(RevokedInc(s.kind));
      assert h.ops == old(h).ops + [ReadOp(id, now), AddRevocation(r, now)];
      var _ := PublishFiles(crlTry, krlTry, now);
      return SeeOther;
    }

    /** PublishRevocations, as made at startup and by every tick. */
    method PublishRevocations(crlTry: Refresh.Try, krlTry: Refresh.Try, now: Time) returns (status: Status)
      requires Valid()
      modifies Repr
      ensures Valid() && Repr == old(Repr)
      ensures var ev := PublishLists(old(CrlOutcome(crlTry)), old(KrlOutcome(krlTry)), now);
              status == Respond(st, old(h), ev).1 && h == After(st, old(h), ev)
    {
      hide LimiterIs, StoreIs, CountersAre, FilesAre, CrlOutcome, KrlOutcome, PublishNow;
      var ok := PublishFiles(crlTry, krlTry, now);
      return PublishedLists(ok);
    }

    /** handleIssued. */
    method HandleIssued(id: Identity, now: Time) returns (status: Status)
      requires Valid()
      modifies Repr
      ensures Valid() && Repr == old(Repr)
      ensures var ev := ViewIssued(id, now);
              status == Respond(st, old(h), ev).1 && h == After(st, old(h), ev)
    {
      hide LimiterIs, StoreIs, CountersAre, FilesAre, VisibleAfterRead;
      var visible := Show(id, now);
      return Page(visible);
    }

    /** collectGauges. */
    method CollectGauges(now: Time) returns (status: Status)
      requires Valid()
      modifies Repr
      ensures Valid() && Repr == old(Repr)
      ensures status == Respond(st, old(h), Scrape(now)).1 && h == After(st, old(h), Scrape(now))
    {
      hide LimiterIs, StoreIs, CountersAre, FilesAre, Listed, Capacity, Run;
      hide VisibleAfterRead, FirstWithSerial, PublishNow, OnIssue, OnRevoke;
      var held, limit := Tracked(now);
      var vpn := Active(Vpn, now);
      var ssh := Active(Ssh, now);
      assert h.ops == old(h).ops + GaugeOps(now);
      return Gauges(held, limit, vpn, ssh);
    }

    /** handleCallback, when the sign-in fails. */
    method HandleSignInFailure(now: Time) returns (status: Status)
      requires Valid()
      modifies Repr
      ensures Valid() && Repr == old(Repr)
      ensures status == Respond(st, old(h), SignInFailure(now)).1 && h == After(st, old(h), SignInFailure(now))
    {
      hide LimiterIs, StoreIs, CountersAre, FilesAre;
      Count(NOT_SIGNED_IN);
      return Forbidden;
    }

    method HandleAnyIssue(kind: Kind, id: Identity, printable: bool, profile: string, mint: Option<string>, ip: string,
                          now: Time)
      requires Valid()
      modifies Repr
      ensures Valid() && fresh(Repr - old(Repr))
      ensures h == After(st, old(h), Issue(kind, id, printable, profile, mint, ip, now))
    {
      hide Valid, After;
      if kind == Vpn {
        var _ := HandleIssue(id, printable, profile, mint, ip, now);
      } else {
        var _ := HandleSshIssue(id, printable, profile, mint, ip, now);
      }
    }

    /** The requests that write no files and issue nothing. */
    method HandlePlain(asked: Event)
      requires Valid() && (asked.ViewIssued? || asked.Scrape? || asked.SignInFailure?)
      modifies Repr
      ensures Valid() && Repr == old(Repr) && h == After(st, old(h), asked)
    {
      hide Valid, After;
      match asked {
        case ViewIssued(id, now) =>
          var _ := HandleIssued(id, now);
        case Scrape(now) =>
          var _ := CollectGauges(now);
        case SignInFailure(now) =>
          var _ := HandleSignInFailure(now);
      }
    }

    /** A request, served by its handler. */
    method Handle(asked: Event, crlTry: Refresh.Try, krlTry: Refresh.Try) returns (ghost ev: Event)
      requires Valid()
      modifies Repr
      ensures Valid() && fresh(Repr - old(Repr))
      ensures BecomesEvent(Request(asked, crlTry, krlTry), ev) && h == After(st, old(h), ev)
    {
      OutcomeEnds(publisher.crlFile.sys, crlTry);
      OutcomeEnds(publisher.krlFile.sys, krlTry);
      ev := WithOutcomes(asked, CrlOutcome(crlTry), KrlOutcome(krlTry));
      BecomesWithOutcomes(asked, crlTry, krlTry, CrlOutcome(crlTry), KrlOutcome(krlTry));
      hide Valid, After, CrlOutcome, KrlOutcome, EndsAs, BecomesEvent;
      match asked {
        case Issue(kind, id, printable, profile, mint, ip, now) =>
          HandleAnyIssue(kind, id, printable, profile, mint, ip, now);
        case RevokeSerial(id, serial, _, _, now) =>
          var _ := HandleRevoke(id, serial, crlTry, krlTry, now);
        case PublishLists(_, _, now) =>
          var _ := PublishRevocations(crlTry, krlTry, now);
        case _ =>
          HandlePlain(asked);
      }
    }

    /** One arrival: a tick publishes the lists if publishing is enabled. */
    method Next(a: Arrival) returns (ghost ev: Event)
      requires Valid()
      modifies Repr
      ensures Valid() && fresh(Repr - old(Repr))
      ensures BecomesEvent(a, ev) && h == After(st, old(h), ev)
      ensures a.Tick? ==> ev == PublishLists(old(CrlOutcome(a.crlTry)), old(KrlOutcome(a.krlTry)), a.now)
    {
      OutcomeEnds(publisher.crlFile.sys, a.crlTry);
      OutcomeEnds(publisher.krlFile.sys, a.krlTry);
      hide Valid, After, Refresh.OutcomeOf, EndsAs;
      match a {
        case Tick(crlTry, krlTry, now) =>
          ev := PublishLists(CrlOutcome(crlTry), KrlOutcome(krlTry), now);
          if st.config.configdirEnabled {
            var _ := PublishRevocations(crlTry, krlTry, now);
          } else {
            DisabledPublishesNothing(st, h, ev);
          }
        case Request(asked, crlTry, krlTry) =>
          ev := Handle(asked, crlTry, krlTry);
      }
    }

    /** RefreshRevocations beside the handlers: every arrival in turn. The state is that of the run
        the arrivals make. */
    method RefreshRevocations(ghost past: seq<Event>, arrivals: seq<Arrival>) returns (ghost events: seq<Event>)
      requires Valid() && h == Serve(st, past)
      modifies Repr
      ensures Valid() && fresh(Repr - old(Repr))
      ensures |events| == |arrivals| && forall i: nat | i < |events| :: BecomesEvent(arrivals[i], events[i])
      ensures h == Serve(st, past + events)
    {
      hide Valid, CrlOutcome, KrlOutcome, Serve, After, BecomesEvent;
      events := [];
      assert past + events == past;
      for i := 0 to |arrivals|
        invariant Valid() && fresh(Repr - old(Repr))
        invariant |events| == i && forall j: nat | j < i :: BecomesEvent(arrivals[j], events[j])
        invariant h == Serve(st, past + events)
      {
        ghost var ev := Next(arrivals[i]);
        ServeOne(st, past + events, ev);
        assert past + events + [ev] == past + (events + [ev]);
        events := events + [ev];
      }
    }
  }

  /** New: the parts a configuration asks for, over the two files to publish. */
  method NewPortal(st: Settings, crlFile: AtomicFile.Host, krlFile: AtomicFile.Host, pem: Publish.Crl -> Bytes)
    returns (p: Portal)
    requires crlFile != krlFile && crlFile.Valid() && krlFile.Valid()
    ensures p.Valid() && fresh(p.Repr - {crlFile, krlFile}) && p.h == NOTHING && p.st == st
  {
    hide AtomicFile.Host.Valid, Refresh.Publisher.Files, RateLimit.Limiter.Valid, AtomicFile.Read, Portal.Valid;
    hide IssueLimit, SetupOf;
    var registry := new Exposition.Registry();
    var store := new MemoryStore(st.config.maxTrackedSessions);
    var publisher := new Refresh.Publisher(SetupOf(st), store, crlFile, krlFile, pem);
    var limiter := RateLimit.NewLimiter(IssueLimit(st.config));
    p := new Portal(st, limiter, store, registry, publisher);
  }
}
