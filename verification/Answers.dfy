/** What each request is answered, told in terms of the configuration and of the
    requests made before it. */
module Answers {
  import opened Common
  import opened Sessions
  import opened Store
  import opened Config
  import opened Portal
  import RateLimit
  import Publish

  /** What event n of a run is answered. */
  function AnswerAt(st: Settings, events: seq<Event>, n: nat): Status
    requires n < |events|
  {
    Respond(st, Serve(st, events[..n]), events[n]).1
  }

  // ----- who may ask -----

  /** The i-th profile of the kind bears the name, names one of the roles, and lasts
      for d. */
  ghost predicate Entitles(c: Config, kind: Kind, i: nat, name: string, roles: seq<string>, d: Time) {
    match kind
    case Vpn =>
      && i < |c.profiles| && c.profiles[i].name == name && c.profiles[i].duration == d
      && exists r :: r in c.profiles[i].roles && r in roles
    case Ssh =>
      && i < |c.sshProfiles| && c.sshProfiles[i].name == name && c.sshProfiles[i].duration == d
      && exists r :: r in c.sshProfiles[i].roles && r in roles
  }

  ghost predicate Entitled(c: Config, kind: Kind, name: string, roles: seq<string>) {
    exists i: nat, d: Time :: Entitles(c, kind, i, name, roles, d)
  }

  /** An issue request of the user's that the configuration allows. */
  ghost predicate Admissible(st: Settings, ev: Event, user: string) {
    && ev.Issue? && ev.id.username == user && user != "" && ev.printable
    && Entitled(st.config, ev.kind, ev.profile, ev.id.roles)
  }

  lemma LookupEntitles(c: Config, kind: Kind, i: nat, name: string, roles: seq<string>, d: Time)
    requires Accepted(c) && Entitles(c, kind, i, name, roles, d)
    ensures var g := GrantFor(c, kind, name);
            g.Some? && g.value.duration == d && AllowedFor(g.value.roles, roles)
  {
    hide Accepted;
    if kind == Vpn {
      AcceptedLookup(c, i);
    } else {
      SshAcceptedLookup(c, i);
    }
  }

  lemma GrantEntitles(c: Config, kind: Kind, name: string, roles: seq<string>)
    requires Accepted(c)
    requires var g := GrantFor(c, kind, name); g.Some? && AllowedFor(g.value.roles, roles)
    ensures exists i: nat :: Entitles(c, kind, i, name, roles, GrantFor(c, kind, name).value.duration)
  {
    if kind == Vpn {
      LookupBounds(c.profiles, name);
      var i: nat :| i < |c.profiles| && c.profiles[i].name == name;
      AcceptedLookup(c, i);
      assert Entitles(c, kind, i, name, roles, c.profiles[i].duration);
    } else {
      SshLookupBounds(c.sshProfiles, name);
      var i: nat :| i < |c.sshProfiles| && c.sshProfiles[i].name == name;
      SshAcceptedLookup(c, i);
      assert Entitles(c, kind, i, name, roles, c.sshProfiles[i].duration);
    }
  }

  /** The handlers let an issue request past authorization exactly when the
      configuration allows it. */
  lemma AuthorizedIff(st: Settings, ev: Event)
    requires Accepted(st.config)
    ensures Authorized(st, ev) <==> ev.Issue? && Admissible(st, ev, ev.id.username)
  {
    hide Accepted, Entitles, GrantFor, AllowedFor;
    if ev.Issue? {
      if Entitled(st.config, ev.kind, ev.profile, ev.id.roles) {
        var i: nat, d: Time :| Entitles(st.config, ev.kind, i, ev.profile, ev.id.roles, d);
        LookupEntitles(st.config, ev.kind, i, ev.profile, ev.id.roles, d);
      }
      if Authorized(st, ev) {
        GrantEntitles(st.config, ev.kind, ev.profile, ev.id.roles);
      }
    }
  }

  // ----- what is issued -----

  /** How long a credential for the request lasts: its profile's duration from the
      whole second of issue, a VPN certificate no longer than its CA. */
  ghost predicate ExpiresAsConfigured(st: Settings, ev: Event, t: Time)
    requires ev.Issue?
  {
    exists i: nat, d: Time :: Entitles(st.config, ev.kind, i, ev.profile, ev.id.roles, d) && ExpiresAfter(st, ev, d, t)
  }

  ghost predicate ExpiresAfter(st: Settings, ev: Event, d: Time, t: Time)
    requires ev.Issue?
  {
    var second := ev.now - ev.now % SECOND;
    var caEnd := st.caNotAfter - st.caNotAfter % SECOND;
    match ev.kind
    case Vpn => second < st.caNotAfter && t == if second + d <= caEnd then second + d else caEnd
    case Ssh => st.sshKey.Some? && t == second + d
  }

  /** The session records the request, which the configuration allows, with the
      serial that was drawn. */
  ghost predicate Earned(st: Settings, ev: Event, s: Session) {
    && ev.Issue? && Admissible(st, ev, s.user)
    && s.kind == ev.kind && s.profile == ev.profile && ev.mint == Some(s.serial)
    && s.clientIp == ev.clientIp && s.issuedAt == ev.now && ExpiresAsConfigured(st, ev, s.expiresAt)
  }

  lemma IssuedIsEarned(st: Settings, ev: Event, s: Session)
    requires Accepted(st.config) && IssuedFor(st, ev, s)
    ensures Earned(st, ev, s)
  {
    AuthorizedIff(st, ev);
    GrantEntitles(st.config, ev.kind, ev.profile, ev.id.roles);
    hide Accepted, Entitles, GrantFor, AllowedFor;
    var d := GrantFor(st.config, ev.kind, ev.profile).value.duration;
    assert ExpiresAfter(st, ev, d, s.expiresAt);
  }

  /** Every credential recorded was asked for by its user, under a configured profile
      of that kind and name that grants one of the user's roles, and lasts as that
      profile says. */
  lemma EverySessionWasEarned(st: Settings, events: seq<Event>, s: Session)
    requires Accepted(st.config) && s in Added(Serve(st, events).ops)
    ensures exists n: nat | n < |events| :: Earned(st, events[n], s)
  {
    hide Accepted, IssuedFor, Earned;
    EverySessionWasAuthorized(st, events, s);
    var n: nat :| n < |events| && IssuedFor(st, events[n], s);
    IssuedIsEarned(st, events[n], s);
  }

  // ----- the limit, in terms of requests -----

  /** How many of the user's admissible requests numbered i up to n were not turned
      away for asking too often. */
  ghost function Admitted(st: Settings, events: seq<Event>, user: string, i: nat, n: nat): nat
    requires n <= |events|
    decreases n
  {
    if n <= i then 0
    else
      Admitted(st, events, user, i, n - 1)
      + if Admissible(st, events[n - 1], user) && !AnswerAt(st, events, n - 1).TooMany? then 1 else 0
  }

  /** After some more seconds the user of event n could have one more, counting from
      the request at i. */
  ghost predicate RoomSince(st: Settings, events: seq<Event>, limit: int, i: nat, n: nat, more: real)
    requires i <= n < |events| && events[n].Issue?
  {
    var waited := (events[n].now - events[i].now) as real / 1000000000.0 + more;
    Admitted(st, events, events[n].id.username, i, n) as real + 1.0 <= limit as real + limit as real * (waited / 3600.0)
  }

  /** Counting from each earlier admissible request of the user's, those admitted
      leave room for event n in a burst of the limit plus the limit every hour. A
      limit that is not positive is none. */
  ghost predicate RoomAfter(st: Settings, events: seq<Event>, limit: int, n: nat, more: real)
    requires n < |events| && events[n].Issue?
  {
    limit <= 0
    || forall i: nat | i < n && Admissible(st, events[i], events[n].id.username) ::
         RoomSince(st, events, limit, i, n, more)
  }

  /** 20 an hour unless configured. */
  ghost predicate LimitIs(c: Config, limit: int) {
    limit == match c.issuesPerHour case None => 20 case Some(n) => n
  }

  /** The number of limiter calls before event i. */
  function CallsBefore(st: Settings, events: seq<Event>, i: nat): nat
    requires i <= |events|
  {
    |Serve(st, events[..i]).calls|
  }

  lemma {:induction false} CallsPrefix(st: Settings, events: seq<Event>, k: nat)
    requires k <= |events|
    ensures Serve(st, events[..k]).calls <= Serve(st, events).calls
  {
    hide Respond;
    if k == |events| {
      assert events[..k] == events;
    } else {
      var front := events[..|events| - 1];
      assert front[..k] == events[..k];
      CallsPrefix(st, front, k);
    }
  }

  /** What event i asks of the limiter. */
  lemma CallOf(st: Settings, events: seq<Event>, i: nat)
    requires Accepted(st.config) && IssueLimit(st.config) > 0 && i < |events|
    ensures var calls, k := Serve(st, events).calls, CallsBefore(st, events, i);
            var ev := events[i];
            && k <= |calls| && calls[..k] == Serve(st, events[..i]).calls
            && if ev.Issue? && Admissible(st, ev, ev.id.username)
               then CallsBefore(st, events, i + 1) == k + 1 && k < |calls|
                    && calls[k] == RateLimit.Call(ev.id.username, ev.now)
               else CallsBefore(st, events, i + 1) == k
  {
    var ev := events[i];
    AuthorizedIff(st, ev);
    CallsPrefix(st, events, i);
    CallsPrefix(st, events, i + 1);
    BudgetIsForTheAuthorized(st, events[..i]);
    BudgetIsForTheAuthorized(st, events[..i + 1]);
    assert events[..i + 1][..i] == events[..i];
    hide Accepted, Authorized, Admissible, Serve;
    var more := if Authorized(st, ev) then [RateLimit.Call(ev.id.username, ev.now)] else [];
    assert Serve(st, events[..i + 1]).calls == Serve(st, events[..i]).calls + more;
  }

  /** The request behind a call of the limiter. */
  lemma {:induction false} EventOf(st: Settings, events: seq<Event>, n: nat, k: nat) returns (i: nat)
    requires Accepted(st.config) && IssueLimit(st.config) > 0 && n <= |events| && k < CallsBefore(st, events, n)
    ensures i < n && events[i].Issue? && Admissible(st, events[i], events[i].id.username)
    ensures CallsBefore(st, events, i) == k
  {
    hide Accepted, Admissible, Serve;
    if n == 0 {
      assert events[..0] == [];
      NoCalls(st, events[..0]);
      assert false;
    }
    CallOf(st, events, n - 1);
    if CallsBefore(st, events, n - 1) <= k {
      i := n - 1;
    } else {
      i := EventOf(st, events, n - 1, k);
    }
  }

  lemma NoCalls(st: Settings, events: seq<Event>)
    requires events == []
    ensures Serve(st, events).calls == []
  {
  }

  /** An admissible request is turned away exactly when the limiter refuses. */
  lemma TooManyIsRefused(st: Settings, events: seq<Event>, i: nat)
    requires Accepted(st.config) && IssueLimit(st.config) > 0 && i < |events|
    requires events[i].Issue? && Admissible(st, events[i], events[i].id.username)
    ensures var calls, k := Serve(st, events).calls, CallsBefore(st, events, i);
            && k < |calls|
            && (AnswerAt(st, events, i).TooMany? <==> !RateLimit.AllowedAt(calls, PerHour(st), k))
            && (AnswerAt(st, events, i).TooMany? ==>
                AnswerAt(st, events, i).retryAfter == RateLimit.ReplyAt(calls, PerHour(st), k).wait)
  {
    CallOf(st, events, i);
    AuthorizedIff(st, events[i]);
    hide Accepted, Admissible, Serve;
    RateLimit.AllowedIsReplied(Serve(st, events).calls, PerHour(st), CallsBefore(st, events, i));
    hide RateLimit.AllowedAt;
    AuthorizedAnswer(st, Serve(st, events[..i]), events[i]);
  }

  lemma AuthorizedAnswer(st: Settings, h: History, ev: Event)
    requires Authorized(st, ev)
    ensures var status := Respond(st, h, ev).1;
            && (status.TooMany? <==> !LimiterReply(st, h, ev.id.username, ev.now).ok)
            && (status.TooMany? ==> status.retryAfter == LimiterReply(st, h, ev.id.username, ev.now).wait)
  {
    hide GrantFor, AllowedFor, LimiterReply, Expiry;
  }

  lemma AllowedStep(calls: seq<RateLimit.Call>, perHour: real, key: string, k: nat, n: nat)
    requires perHour > 0.0 && k <= n < |calls|
    ensures RateLimit.Allowed(calls, perHour, key, k, n + 1)
         == RateLimit.Allowed(calls, perHour, key, k, n)
            + if calls[n].key == key && RateLimit.AllowedAt(calls, perHour, n) then 1 else 0
  {
    hide RateLimit.AllowedAt;
  }

  /** One more event counts alike on both sides. */
  lemma AdmittedStep(st: Settings, events: seq<Event>, user: string, k: nat, n: nat)
    requires Accepted(st.config) && IssueLimit(st.config) > 0 && n < |events|
    requires k <= CallsBefore(st, events, n)
    ensures var calls, m := Serve(st, events).calls, CallsBefore(st, events, n);
            && m <= CallsBefore(st, events, n + 1) <= |calls|
            && RateLimit.Allowed(calls, PerHour(st), user, k, CallsBefore(st, events, n + 1))
               == RateLimit.Allowed(calls, PerHour(st), user, k, m)
                  + if Admissible(st, events[n], user) && !AnswerAt(st, events, n).TooMany? then 1 else 0
  {
    var ev := events[n];
    CallOf(st, events, n);
    AdmissibleOwn(st, ev, user);
    hide Accepted, Serve, AnswerAt, RateLimit.AllowedAt, RateLimit.Allowed, Admissible;
    if ev.Issue? && Admissible(st, ev, ev.id.username) {
      TooManyIsRefused(st, events, n);
      AllowedStep(Serve(st, events).calls, PerHour(st), user, k, CallsBefore(st, events, n));
    }
  }

  lemma AdmissibleOwn(st: Settings, ev: Event, user: string)
    ensures Admissible(st, ev, user) <==> ev.Issue? && ev.id.username == user && Admissible(st, ev, ev.id.username)
  {
    hide Entitled;
  }

  lemma {:induction false} AdmittedIsAllowed(st: Settings, events: seq<Event>, user: string, i: nat, n: nat)
    requires Accepted(st.config) && IssueLimit(st.config) > 0 && i <= n <= |events|
    ensures CallsBefore(st, events, i) <= CallsBefore(st, events, n) <= |Serve(st, events).calls|
    ensures Admitted(st, events, user, i, n)
         == RateLimit.Allowed(Serve(st, events).calls, PerHour(st), user,
                              CallsBefore(st, events, i), CallsBefore(st, events, n))
    decreases n
  {
    hide Accepted, Serve, AnswerAt, Admissible, IssueLimit, CallsBefore, RateLimit.Allowed;
    PrefixCalls(st, events, n);
    if n > i {
      AdmittedIsAllowed(st, events, user, i, n - 1);
      AdmittedStep(st, events, user, CallsBefore(st, events, i), n - 1);
    } else {
      AllowedNone(Serve(st, events).calls, PerHour(st), user, CallsBefore(st, events, i));
    }
  }

  lemma AllowedNone(calls: seq<RateLimit.Call>, perHour: real, key: string, k: nat)
    requires perHour > 0.0 && k <= |calls|
    ensures RateLimit.Allowed(calls, perHour, key, k, k) == 0
  {
  }

  lemma PrefixCalls(st: Settings, events: seq<Event>, n: nat)
    requires n <= |events|
    ensures CallsBefore(st, events, n) <= |Serve(st, events).calls|
  {
    CallsPrefix(st, events, n);
  }

  // ----- what an issue request is answered -----

  /** The tokens call n finds are the least room left, over its user's calls before
      it and the full burst. */
  lemma LeastRoom(calls: seq<RateLimit.Call>, perHour: real, n: nat)
    requires perHour >= 1.0 && n < |calls| && RateLimit.Ordered(calls)
    ensures var key, at, tokens := calls[n].key, calls[n].at, RateLimit.TokensAt(calls, perHour, n);
            && 0.0 <= tokens <= perHour
            && (forall k: nat | k < n && calls[k].key == key ::
                  tokens <= RateLimit.Room(calls, perHour, key, k, n, at))
            && (tokens == perHour || exists k: nat | k < n && calls[k].key == key ::
                  tokens == RateLimit.Room(calls, perHour, key, k, n, at))
  {
    var c := calls[n];
    RateLimit.KeepingExplained(calls, perHour, n);
    RateLimit.AvailableIsLeastRoom(calls, perHour, n, RateLimit.Keeping(calls[..n], perHour));
    RateLimit.SweepingCoupled(calls[..n], perHour, c.at);
    RateLimit.CoupledAgree(RateLimit.Sweeping(calls[..n], perHour), RateLimit.Keeping(calls[..n], perHour),
                           perHour, c.at, c.key, c.at);
    RateLimit.RoomOfSelf(calls, perHour, c.key, n);
    hide RateLimit.Room, RateLimit.Available, RateLimit.Keeping, RateLimit.Sweeping, RateLimit.AllExplained;
  }

  /** What the bucket holds and then accrues makes a token. */
  predicate MakesToken(perHour: real, tokens: real, more: real) {
    tokens + more * RateLimit.PerSecond(perHour) >= 1.0
  }

  lemma MoreMakesToken(perHour: real, tokens: real, room: real, more: real)
    requires tokens <= room
    ensures MakesToken(perHour, tokens, more) ==> MakesToken(perHour, room, more)
  {
  }

  /** Room in terms of requests is room in terms of calls. */
  lemma RoomSinceIsRoom(st: Settings, events: seq<Event>, i: nat, n: nat, more: real)
    requires Accepted(st.config) && IssueLimit(st.config) > 0 && i < n < |events|
    requires events[n].Issue? && Admissible(st, events[n], events[n].id.username)
    requires Admissible(st, events[i], events[n].id.username)
    ensures var calls, k, m := Serve(st, events).calls, CallsBefore(st, events, i), CallsBefore(st, events, n);
            && k < m < |calls| && calls[k].key == calls[m].key == events[n].id.username
            && calls[m].at == events[n].now
            && (RoomSince(st, events, IssueLimit(st.config), i, n, more)
                <==> MakesToken(PerHour(st), RateLimit.Room(calls, PerHour(st), calls[m].key, k, m, calls[m].at), more))
  {
    hide Accepted, Serve, Admissible, Admitted, IssueLimit, CallsBefore, RateLimit.Allowed;
    var user := events[n].id.username;
    AdmissibleOwn(st, events[i], user);
    CallOf(st, events, i);
    CallOf(st, events, n);
    AdmittedIsAllowed(st, events, user, i, n);
    AdmittedIsAllowed(st, events, user, i + 1, n);
    Accrues(PerHour(st), events[n].now - events[i].now, more);
    hide RateLimit.Refill, RateLimit.PerSecond;
  }

  lemma Accrues(perHour: real, d: Time, more: real)
    ensures perHour * ((d as real / 1000000000.0 + more) / 3600.0)
         == RateLimit.Refill(perHour, d) + more * RateLimit.PerSecond(perHour)
  {
    var x := d as real / 1000000000.0;
    assert perHour * ((x + more) / 3600.0) == (x + more) * (perHour / 3600.0);
    assert (x + more) * (perHour / 3600.0) == x * (perHour / 3600.0) + more * (perHour / 3600.0);
  }

  lemma RunInOrder(st: Settings, events: seq<Event>)
    requires InOrder(events)
    ensures RateLimit.Ordered(Serve(st, events).calls)
  {
    ServeUpTo(st, events, if events == [] then 0 else events[|events| - 1].now);
  }

  lemma PerHourBound(st: Settings, more: real)
    requires IssueLimit(st.config) > 0 && more >= 0.0
    ensures PerHour(st) >= 1.0 && more * RateLimit.PerSecond(PerHour(st)) >= 0.0
  {
    RateLimit.MultiplyMonotone(0.0, more, RateLimit.PerSecond(PerHour(st)));
  }

  lemma MakesTokenIff(perHour: real, tokens: real, more: real)
    requires perHour >= 1.0 && 0.0 <= tokens < 1.0
    ensures MakesToken(perHour, tokens, more) <==> more >= RateLimit.ExactWait(perHour, tokens)
  {
    RateLimit.WaitFacts(perHour, tokens, more);
  }

  /** There is room after some seconds exactly when what the bucket holds and then
      accrues makes a token. */
  lemma RoomIsTokens(st: Settings, events: seq<Event>, n: nat, more: real)
    requires Accepted(st.config) && IssueLimit(st.config) > 0 && InOrder(events) && more >= 0.0
    requires n < |events| && events[n].Issue? && Admissible(st, events[n], events[n].id.username)
    ensures CallsBefore(st, events, n) < |Serve(st, events).calls|
    ensures RoomAfter(st, events, IssueLimit(st.config), n, more)
       <==> MakesToken(PerHour(st),
                       RateLimit.TokensAt(Serve(st, events).calls, PerHour(st), CallsBefore(st, events, n)), more)
  {
    CallOf(st, events, n);
    PrefixCalls(st, events, n);
    RunInOrder(st, events);
    FullMakesToken(st, more);
    hide Accepted, Serve, Admissible, IssueLimit, CallsBefore, InOrder, RoomSince, PerHour, MakesToken;
    hide RateLimit.Room, RateLimit.TokensAt, RateLimit.Ordered;
    var calls, m, user := Serve(st, events).calls, CallsBefore(st, events, n), events[n].id.username;
    var tokens := RateLimit.TokensAt(calls, PerHour(st), m);
    LeastRoom(calls, PerHour(st), m);
    forall i: nat | i < n && Admissible(st, events[i], user)
      ensures MakesToken(PerHour(st), tokens, more) ==> RoomSince(st, events, IssueLimit(st.config), i, n, more)
    {
      RoomSinceIsRoom(st, events, i, n, more);
      var k := CallsBefore(st, events, i);
      MoreMakesToken(PerHour(st), tokens, RateLimit.Room(calls, PerHour(st), calls[m].key, k, m, calls[m].at), more);
    }
    if tokens != PerHour(st) {
      var k: nat :| k < m && calls[k].key == calls[m].key
        && tokens == RateLimit.Room(calls, PerHour(st), calls[m].key, k, m, calls[m].at);
      var i := EventOf(st, events, n, k);
      CallOf(st, events, i);
      RoomSinceIsRoom(st, events, i, n, more);
    }
  }

  lemma FullMakesToken(st: Settings, more: real)
    requires IssueLimit(st.config) > 0 && more >= 0.0
    ensures PerHour(st) >= 1.0 && MakesToken(PerHour(st), PerHour(st), more)
  {
    PerHourBound(st, more);
  }

  lemma TurnedAwayLimited(st: Settings, events: seq<Event>, n: nat)
    requires Accepted(st.config) && InOrder(events) && IssueLimit(st.config) > 0
    requires n < |events| && events[n].Issue? && Admissible(st, events[n], events[n].id.username)
    ensures AnswerAt(st, events, n).TooMany? <==> !RoomAfter(st, events, IssueLimit(st.config), n, 0.0)
  {
    hide Accepted, Serve, Admissible, IssueLimit, CallsBefore, InOrder, RoomAfter, PerHour, AnswerAt;
    hide RateLimit.TokensAt, RateLimit.PerSecond, RateLimit.ReplyAt;
    TooManyIsRefused(st, events, n);
    RoomIsTokens(st, events, n, 0.0);
    assert 0.0 * RateLimit.PerSecond(PerHour(st)) == 0.0;
  }

  lemma UnlimitedReply(st: Settings, h: History, user: string, now: Time)
    requires IssueLimit(st.config) <= 0
    ensures LimiterReply(st, h, user, now).ok
  {
  }

  /** An admissible request is turned away for asking too often exactly when those
      admitted before it leave no room. */
  lemma TurnedAwayIff(st: Settings, events: seq<Event>, n: nat)
    requires Accepted(st.config) && InOrder(events)
    requires n < |events| && events[n].Issue? && Admissible(st, events[n], events[n].id.username)
    ensures AnswerAt(st, events, n).TooMany? <==> !RoomAfter(st, events, IssueLimit(st.config), n, 0.0)
  {
    hide Accepted, Serve, Admissible, Authorized, IssueLimit, InOrder, RoomSince, LimiterReply, Respond;
    if IssueLimit(st.config) > 0 {
      TurnedAwayLimited(st, events, n);
    } else {
      AuthorizedIff(st, events[n]);
      AuthorizedAnswer(st, Serve(st, events[..n]), events[n]);
      UnlimitedReply(st, Serve(st, events[..n]), events[n].id.username, events[n].now);
    }
  }

  /** The CA can sign for the request: not lapsed, for VPN; there, for SSH. */
  ghost predicate CaReady(st: Settings, ev: Event)
    requires ev.Issue?
  {
    match ev.kind
    case Vpn => ev.now - ev.now % SECOND < st.caNotAfter
    case Ssh => st.sshKey.Some?
  }

  lemma ExpiryIsReady(st: Settings, ev: Event, d: Time)
    requires ev.Issue?
    ensures Expiry(st, ev.kind, ev.now, d).Ok? <==> CaReady(st, ev)
  {
  }

  lemma AuthorizedIsIssued(st: Settings, h: History, ev: Event)
    requires Authorized(st, ev)
    ensures var (more, status) := Respond(st, h, ev);
            && !status.Forbidden?
            && (status.Issued? <==> !status.TooMany? && CaReady(st, ev) && ev.mint.Some?)
            && (status.Failed? <==> !status.TooMany? && !(CaReady(st, ev) && ev.mint.Some?))
            && (status.Issued? ==> more.ops == [AddSession(status.session, ev.now)])
  {
    ExpiryIsReady(st, ev, GrantFor(st.config, ev.kind, ev.profile).value.duration);
    hide GrantFor, AllowedFor, LimiterReply, Expiry;
  }

  lemma UnauthorizedIsForbidden(st: Settings, h: History, ev: Event)
    requires ev.Issue? && !Authorized(st, ev)
    ensures Respond(st, h, ev).1 == Forbidden
  {
    hide GrantFor, AllowedFor, LimiterReply, Expiry;
  }

  /** What an issue request of either kind is answered, in any run over an accepted
      configuration. It is forbidden exactly when the configuration does not allow
      it; turned away exactly when it is allowed and the user's requests so far leave
      no room; failed exactly when there is room and the CA cannot sign; and
      otherwise a credential is issued, as asked for, and recorded. */
  lemma IssueIsAnswered(st: Settings, events: seq<Event>, n: nat, limit: int)
    requires Accepted(st.config) && InOrder(events) && n < |events| && events[n].Issue? && LimitIs(st.config, limit)
    ensures var ev, answer := events[n], AnswerAt(st, events, n);
            var allowed := Admissible(st, ev, ev.id.username);
            var room := RoomAfter(st, events, limit, n, 0.0);
            var signed := CaReady(st, ev) && ev.mint.Some?;
            && (answer.Forbidden? <==> !allowed)
            && (answer.TooMany? <==> allowed && !room)
            && (answer.Failed? <==> allowed && room && !signed)
            && (answer.Issued? <==> allowed && room && signed)
            && (answer.Issued? ==>
                Earned(st, ev, answer.session) && answer.session.user == ev.id.username
                && answer.session in Added(Serve(st, events[..n + 1]).ops))
  {
    var ev, h := events[n], Serve(st, events[..n]);
    assert IssueLimit(st.config) == limit;
    AuthorizedIff(st, ev);
    assert events[..n + 1][..n] == events[..n];
    assert Serve(st, events[..n + 1]) == After(st, h, ev);
    hide Accepted, Serve, Admissible, Authorized, IssueLimit, InOrder, RoomAfter, CaReady, Earned, Added;
    if Authorized(st, ev) {
      TurnedAwayIff(st, events, n);
      AuthorizedIsIssued(st, h, ev);
      if Respond(st, h, ev).1.Issued? {
        IssuedIsRecorded(st, h, ev);
      }
    } else {
      UnauthorizedIsForbidden(st, h, ev);
    }
  }

  lemma IssuedIsRecorded(st: Settings, h: History, ev: Event)
    requires Accepted(st.config) && ev.Issue? && Respond(st, h, ev).1.Issued? && Authorized(st, ev)
    ensures var s := Respond(st, h, ev).1.session;
            Earned(st, ev, s) && s.user == ev.id.username && s in Added(After(st, h, ev).ops)
  {
    AuthorizedIsIssued(st, h, ev);
    RespondIssuesFor(st, h, ev);
    var (more, status) := Respond(st, h, ev);
    hide Accepted, Authorized, Earned, Respond;
    AddedOne(status.session, ev.now);
    AddedConcat(h.ops, more.ops);
    IssuedIsEarned(st, ev, status.session);
  }

  // ----- how long a refused user is told to wait -----

  /** The wait told is whole seconds and within half a second of the exact one, and not
      short of it exactly when the delay, in nanoseconds, was rounded up or needed no
      rounding. */
  predicate RoundedWait(exact: real, told: Time) {
    var nanos := (exact * 1000000000.0).Floor;
    && told % SECOND == 0
    && -0.5 <= told as real / 1000000000.0 - exact <= 0.5
    && (told as real / 1000000000.0 >= exact <==>
        2 * (nanos % SECOND) >= SECOND || exact == (nanos - nanos % SECOND) as real / 1000000000.0)
  }

  /** What TooMany tells a user to wait. There is one exact delay from which on there
      would be room; it is positive and at most 3600/limit seconds, and what is told
      is that delay rounded. */
  lemma ToldToWait(st: Settings, events: seq<Event>, n: nat, limit: int) returns (exact: real)
    requires Accepted(st.config) && InOrder(events) && n < |events| && LimitIs(st.config, limit)
    requires AnswerAt(st, events, n).TooMany?
    ensures events[n].Issue? && limit > 0 && 0.0 < exact <= 3600.0 / limit as real
    ensures forall more: real | more >= 0.0 :: RoomAfter(st, events, limit, n, more) <==> more >= exact
    ensures RoundedWait(exact, AnswerAt(st, events, n).retryAfter)
  {
    TooManyIsLimited(st, events, n);
    assert IssueLimit(st.config) == limit && PerHour(st) == limit as real;
    IssueIsAnswered(st, events, n, limit);
    hide Accepted, Serve, Admissible, IssueLimit, CallsBefore, InOrder, RoomAfter, AnswerAt, PerHour, LimitIs;
    hide RateLimit.ExactWait, RateLimit.Wait, RateLimit.TokensAt, RoundedWait;
    var tokens := RefusedTokens(st, events, n);
    exact := RateLimit.ExactWait(PerHour(st), tokens);
    ToldIsRounded(PerHour(st), tokens);
    forall more: real | more >= 0.0 ensures RoomAfter(st, events, limit, n, more) <==> more >= exact {
      RoomFromExact(st, events, n, more);
    }
  }

  lemma RoomFromExact(st: Settings, events: seq<Event>, n: nat, more: real)
    requires Accepted(st.config) && InOrder(events) && IssueLimit(st.config) > 0 && more >= 0.0
    requires n < |events| && events[n].Issue? && Admissible(st, events[n], events[n].id.username)
    requires CallsBefore(st, events, n) < |Serve(st, events).calls|
    requires 0.0 <= RateLimit.TokensAt(Serve(st, events).calls, PerHour(st), CallsBefore(st, events, n)) < 1.0
    ensures RoomAfter(st, events, IssueLimit(st.config), n, more)
       <==> more >= RateLimit.ExactWait(
              PerHour(st), RateLimit.TokensAt(Serve(st, events).calls, PerHour(st), CallsBefore(st, events, n)))
  {
    PerHourBound(st, more);
    hide Accepted, Serve, Admissible, IssueLimit, CallsBefore, InOrder, RoomAfter, PerHour, MakesToken;
    hide RateLimit.ExactWait, RateLimit.TokensAt, RateLimit.PerSecond;
    var tokens := RateLimit.TokensAt(Serve(st, events).calls, PerHour(st), CallsBefore(st, events, n));
    RoomIsTokens(st, events, n, more);
    MakesTokenIff(PerHour(st), tokens, more);
  }

  /** What a refused call finds, and is told. */
  lemma RefusedTokens(st: Settings, events: seq<Event>, n: nat) returns (tokens: real)
    requires Accepted(st.config) && InOrder(events) && IssueLimit(st.config) > 0
    requires n < |events| && events[n].Issue? && Admissible(st, events[n], events[n].id.username)
    requires AnswerAt(st, events, n).TooMany?
    ensures CallsBefore(st, events, n) < |Serve(st, events).calls|
    ensures tokens == RateLimit.TokensAt(Serve(st, events).calls, PerHour(st), CallsBefore(st, events, n))
    ensures 0.0 <= tokens < 1.0 <= PerHour(st)
    ensures AnswerAt(st, events, n).retryAfter == RateLimit.Wait(PerHour(st), tokens)
  {
    PerHourBound(st, 0.0);
    hide Accepted, Serve, Admissible, IssueLimit, CallsBefore, InOrder, AnswerAt, PerHour;
    TooManyIsRefused(st, events, n);
    RunInOrder(st, events);
    var calls, k := Serve(st, events).calls, CallsBefore(st, events, n);
    LeastRoom(calls, PerHour(st), k);
    ReplyTells(calls, PerHour(st), k);
    hide RateLimit.TokensAt, RateLimit.Room, RateLimit.ReplyAt, RateLimit.Wait, RateLimit.Ordered;
    tokens := RateLimit.TokensAt(calls, PerHour(st), k);
  }

  lemma ReplyTells(calls: seq<RateLimit.Call>, perHour: real, k: nat)
    requires perHour > 0.0 && k < |calls| && !RateLimit.AllowedAt(calls, perHour, k)
    ensures RateLimit.ReplyAt(calls, perHour, k).wait
         == RateLimit.Wait(perHour, RateLimit.TokensAt(calls, perHour, k))
  {
    hide RateLimit.Wait, RateLimit.Available;
  }

  lemma ToldIsRounded(perHour: real, tokens: real)
    requires perHour >= 1.0 && 0.0 <= tokens < 1.0
    ensures 0.0 < RateLimit.ExactWait(perHour, tokens) <= 3600.0 / perHour
    ensures RoundedWait(RateLimit.ExactWait(perHour, tokens), RateLimit.Wait(perHour, tokens))
  {
    hide RateLimit.ExactWait, RateLimit.Wait;
    RateLimit.WaitFacts(perHour, tokens, 0.0);
    RateLimit.RetryAfterRounding(perHour, tokens);
  }

  lemma TooManyIsLimited(st: Settings, events: seq<Event>, n: nat)
    requires n < |events| && AnswerAt(st, events, n).TooMany?
    ensures events[n].Issue? && IssueLimit(st.config) > 0
  {
    hide PublishNow, VisibleAfterRead, FirstWithSerial, GrantFor, AllowedFor, Expiry;
  }

  /** The user's next admissible request after n comes at m. */
  ghost predicate NextOf(st: Settings, events: seq<Event>, n: nat, m: nat) {
    && n < m < |events| && events[n].Issue? && events[m].Issue? && events[m].id.username == events[n].id.username
    && Admissible(st, events[m], events[m].id.username)
    && forall j: nat | n < j < m :: !Admissible(st, events[j], events[n].id.username)
  }

  lemma {:induction false} NoneAdmitted(st: Settings, events: seq<Event>, user: string, i: nat, n: nat, m: nat)
    requires i <= n < m <= |events| && AnswerAt(st, events, n).TooMany?
    requires forall j: nat | n < j < m :: !Admissible(st, events[j], user)
    ensures Admitted(st, events, user, i, m) == Admitted(st, events, user, i, n)
    decreases m
  {
    hide AnswerAt, Admissible;
    if m > n + 1 {
      NoneAdmitted(st, events, user, i, n, m - 1);
    }
  }

  lemma SameRoomSince(st: Settings, events: seq<Event>, limit: int, i: nat, n: nat, m: nat, more: real)
    requires NextOf(st, events, n, m) && i <= n && AnswerAt(st, events, n).TooMany?
    requires more == (events[m].now - events[n].now) as real / 1000000000.0
    ensures RoomSince(st, events, limit, i, m, 0.0) <==> RoomSince(st, events, limit, i, n, more)
  {
    hide AnswerAt, Admissible, Admitted;
    NoneAdmitted(st, events, events[n].id.username, i, n, m);
    var d := (events[n].now - events[i].now) as real;
    assert (events[m].now - events[i].now) as real == d + (events[m].now - events[n].now) as real;
    assert (events[m].now - events[i].now) as real / 1000000000.0 + 0.0 == d / 1000000000.0 + more;
  }

  lemma RoomSinceItself(st: Settings, events: seq<Event>, limit: int, n: nat, more: real)
    requires n < |events| && events[n].Issue? && limit > 0 && more >= 0.0
    ensures RoomSince(st, events, limit, n, n, more)
  {
    RateLimit.MultiplyMonotone(0.0, more / 3600.0, limit as real);
  }

  /** Being turned away is no use of the limit: the next request is judged as the one
      turned away would have been so much later. */
  lemma NextIsLater(st: Settings, events: seq<Event>, n: nat, m: nat, limit: int, more: real)
    requires NextOf(st, events, n, m) && limit > 0 && AnswerAt(st, events, n).TooMany?
    requires more == (events[m].now - events[n].now) as real / 1000000000.0 && more >= 0.0
    ensures RoomAfter(st, events, limit, m, 0.0) <==> RoomAfter(st, events, limit, n, more)
  {
    hide AnswerAt, Admissible, RoomSince;
    RoomSinceItself(st, events, limit, n, more);
    forall i: nat | i <= n
      ensures RoomSince(st, events, limit, i, m, 0.0) <==> RoomSince(st, events, limit, i, n, more)
    {
      SameRoomSince(st, events, limit, i, n, m, more);
    }
  }

  /** Waiting. A user turned away at n is, at the next admissible request, turned away
      again if and only if less than the exact delay has passed, whatever anyone else
      has done; so after just the wait told, if and only if that was rounded down. */
  lemma WaitingAsTold(st: Settings, events: seq<Event>, n: nat, m: nat, limit: int) returns (exact: real)
    requires Accepted(st.config) && InOrder(events) && NextOf(st, events, n, m) && LimitIs(st.config, limit)
    requires AnswerAt(st, events, n).TooMany?
    ensures RoundedWait(exact, AnswerAt(st, events, n).retryAfter)
    ensures forall more: real | more >= 0.0 :: RoomAfter(st, events, limit, n, more) <==> more >= exact
    ensures AnswerAt(st, events, m).TooMany? <==> (events[m].now - events[n].now) as real / 1000000000.0 < exact
  {
    exact := ToldToWait(st, events, n, limit);
    IssueIsAnswered(st, events, m, limit);
    hide AnswerAt, Admissible, RoomAfter, RoundedWait;
    var more := (events[m].now - events[n].now) as real / 1000000000.0;
    assert more >= 0.0;
    NextIsLater(st, events, n, m, limit, more);
  }

  // ----- what a view of the credentials shows -----

  /** 1000 unless configured. */
  ghost predicate BoundIs(c: Config, max: nat) {
    max == if c.maxTrackedSessions > 0 then c.maxTrackedSessions else 1000
  }

  lemma {:induction false} FilterSelects<T>(s: seq<T>, p: T -> bool) returns (keep: seq<bool>)
    ensures |keep| == |s| && (forall i: nat | i < |s| :: keep[i] <==> p(s[i])) && Filter(s, p) == Select(s, keep)
  {
    if s == [] {
      keep := [];
    } else {
      var rest := FilterSelects(s[1..], p);
      keep := [p(s[0])] + rest;
      assert keep[1..] == rest;
      assert Filter(s, p) == (if p(s[0]) then [s[0]] else []) + Filter(s[1..], p);
    }
  }

  /** Which of some sessions the caller may see. */
  ghost predicate MineOf(id: Identity, s: seq<Session>, mine: seq<bool>) {
    |mine| == |s| && forall i: nat | i < |s| :: mine[i] <==> id.admin || s[i].user == id.username
  }

  ghost predicate LiveOf(s: seq<Session>, now: Time, live: seq<bool>) {
    |live| == |s| && forall i: nat | i < |s| :: live[i] <==> now <= s[i].expiresAt
  }

  lemma VisibleSelects(s: seq<Session>, id: Identity) returns (mine: seq<bool>)
    ensures MineOf(id, s, mine) && Visible(s, id) == Select(s, mine)
  {
    if id.admin {
      mine := seq(|s|, _ => true);
      SelectAll(s, mine);
    } else {
      mine := FilterSelects(s, OwnedBy(id.username));
    }
  }

  /** What a view shows. Of everything ever issued, newest first, take what has not
      expired; of that the bound's worth that expires last, newer before older at the
      same expiry; and of that, in the same order, all for an administrator and
      their own for anyone else. */
  lemma ViewShows(st: Settings, events: seq<Event>, id: Identity, now: Time, max: nat)
    returns (live: seq<bool>, greatest: seq<bool>, mine: seq<bool>)
    requires InOrder(events) && (forall i: nat | i < |events| :: events[i].now <= now) && BoundIs(st.config, max)
    ensures var added := Added(Serve(st, events).ops);
            && LiveOf(added, now, live)
            && KeepsGreatest(Select(added, live), greatest, max)
            && MineOf(id, Select(Select(added, live), greatest), mine)
            && Respond(st, Serve(st, events), ViewIssued(id, now)).1
               == Page(Select(Select(Select(added, live), greatest), mine))
  {
    ReadShowsBest(st, events, id, now);
    assert Capacity(st) == max;
    hide Serve, Added, Visible, Best, KeepsGreatest, Capacity, VisibleAfterRead, InOrder, MineOf, Select;
    var added := Added(Serve(st, events).ops);
    live := FilterSelects(added, Unexpired(now));
    assert Live(added, now) == Select(added, live);
    greatest := BestMask(Live(added, now), max);
    mine := VisibleSelects(Best(Live(added, now), max), id);
    MaskFits(Live(added, now), greatest, max);
  }

  lemma MaskFits(s: seq<Session>, keep: seq<bool>, max: nat)
    requires KeepsGreatest(s, keep, max)
    ensures |keep| == |s|
  {
  }

  /** With room for 25 times the hourly limit for every user, a view shows everything
      that is live and the caller's, or everything live for an administrator. */
  lemma ViewShowsAllLive(st: Settings, events: seq<Event>, users: set<string>, id: Identity, now: Time)
    returns (shown: seq<bool>)
    requires Accepted(st.config) && InOrder(events) && Requested(events, users)
    requires forall i: nat | i < |events| :: events[i].now <= now
    requires IssueLimit(st.config) > 0 && Capacity(st) >= 25 * IssueLimit(st.config) * |users|
    ensures var added := Added(Serve(st, events).ops);
            && |shown| == |added|
            && (forall i: nat | i < |added| ::
                  shown[i] <==> now <= added[i].expiresAt && (id.admin || added[i].user == id.username))
            && Respond(st, Serve(st, events), ViewIssued(id, now)).1 == Page(Select(added, shown))
  {
    LiveFits(st, events, users, id, now);
    ReadShowsBest(st, events, id, now);
    hide Accepted, Serve, Added, Best, Capacity, IssueLimit, VisibleAfterRead, InOrder, Requested, Select;
    var added := Added(Serve(st, events).ops);
    var both := (s: Session) => !s.Expired(now) && (id.admin || s.user == id.username);
    shown := FilterSelects(added, both);
    if id.admin {
      FilterAgrees(added, Unexpired(now), both);
    } else {
      FilterBoth(added, Unexpired(now), OwnedBy(id.username), both);
    }
  }

  lemma {:induction false} FilterAgrees<T>(s: seq<T>, p: T -> bool, q: T -> bool)
    requires forall x | x in s :: p(x) <==> q(x)
    ensures Filter(s, p) == Filter(s, q)
  {
    if s != [] {
      FilterAgrees(s[1..], p, q);
    }
  }

  /** With that capacity nothing live is ever out of sight. */
  lemma LiveFits(st: Settings, events: seq<Event>, users: set<string>, id: Identity, now: Time)
    requires Accepted(st.config) && InOrder(events) && Requested(events, users)
    requires forall i: nat | i < |events| :: events[i].now <= now
    requires IssueLimit(st.config) > 0 && Capacity(st) >= 25 * IssueLimit(st.config) * |users|
    ensures var live := Live(Added(Serve(st, events).ops), now); Best(live, Capacity(st)) == live
  {
    var later := events + [ViewIssued(id, now)];
    ServeRead(st, events, id, now);
    hide Serve, Respond, OnIssue, OnRevoke, Accepted, Best;
    assert forall i: nat | i < |later| :: later[i].now <= now;
    NoForgottenCredential(st, later, users);
    ServeUpTo(st, later, now);
    StreamingEqualsBatch(Serve(st, later).ops, Capacity(st));
  }

  /** A request to revoke is answered with a redirect exactly when the serial is that
      of a credential the caller can see, and is refused otherwise. */
  lemma RevokeIsAnswered(st: Settings, events: seq<Event>, ev: Event, max: nat)
    requires ev.RevokeSerial? && InOrder(events) && BoundIs(st.config, max)
    requires forall i: nat | i < |events| :: events[i].now <= ev.now
    ensures var h := Serve(st, events);
            var answer := Respond(st, h, ev).1;
            && (answer == SeeOther || answer == Forbidden)
            && (answer == SeeOther <==>
                ev.id.username != "" && exists s | s in Best(Live(Added(h.ops), ev.now), max) ::
                  s.serial == ev.serial && (ev.id.admin || s.user == ev.id.username))
  {
    WhoCanRevoke(st, events, ev.id, ev.serial, ev.crlOutcome, ev.krlOutcome, ev.now);
    assert Capacity(st) == max;
    hide Serve, Added, Best, Live, VisibleAfterRead, FirstWithSerial, PublishNow, InOrder, Capacity;
  }
}
