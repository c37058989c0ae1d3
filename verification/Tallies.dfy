/** What each of the portal's counters counts, in terms of the requests made and what
    they were answered. */
module Tallies {
  import opened Common
  import opened Sessions
  import opened Store
  import opened Config
  import opened Metrics
  import opened Portal
  import A = Answers
  import S = Scrape
  import EE = EndToEnd

  /** How many events of a run meet a condition along with what they were answered. */
  ghost function CountEvents(st: Settings, events: seq<Event>, p: (Event, Status) -> bool): nat {
    if events == [] then 0
    else
      var n := |events| - 1;
      CountEvents(st, events[..n], p) + if p(events[n], A.AnswerAt(st, events, n)) then 1 else 0
  }

  /** Each event adds to the counter exactly if it meets the condition. */
  ghost predicate Adds(st: Settings, inc: Inc, p: (Event, Status) -> bool) {
    forall h: History, ev: Event ::
      Occurrences(Respond(st, h, ev).0.incs, inc) == if p(ev, Respond(st, h, ev).1) then 1 else 0
  }

  lemma {:induction false} OccurrencesCount(st: Settings, events: seq<Event>, inc: Inc, p: (Event, Status) -> bool)
    requires Adds(st, inc, p)
    ensures Occurrences(Serve(st, events).incs, inc) == CountEvents(st, events, p)
  {
    hide Respond;
    if events != [] {
      var n := |events| - 1;
      var h := Serve(st, events[..n]);
      OccurrencesCount(st, events[..n], inc, p);
      S.OccurrencesConcat(h.incs, Respond(st, h, events[n]).0.incs, inc);
    } else {
      NoIncs(st, events, inc);
    }
  }

  lemma NoIncs(st: Settings, events: seq<Event>, inc: Inc)
    requires events == []
    ensures Occurrences(Serve(st, events).incs, inc) == 0
  {
  }

  /** A counter is there just when its count is not 0, and then holds it. */
  ghost predicate Counted(st: Settings, events: seq<Event>, inc: Inc, n: nat) {
    var counts, key := Tally(Serve(st, events).incs), SeriesOf(inc);
    if n == 0 then key !in counts else key in counts && counts[key] == n
  }

  lemma CountedIs(st: Settings, events: seq<Event>, inc: Inc)
    requires S.FromHandlers(inc)
    ensures Counted(st, events, inc, Occurrences(Serve(st, events).incs, inc))
  {
    S.ServeIncs(st, events);
    S.HandlersWellFormed(inc);
    var incs := Serve(st, events).incs;
    hide Serve, WellFormed, S.FromHandlers, Tally, Occurrences;
    forall i | 0 <= i < |incs| ensures WellFormed(incs[i]) {
      S.HandlersWellFormed(incs[i]);
    }
    CountsAreOccurrences(incs, inc);
  }

  // ----- which event adds to which counter -----

  function KindName(kind: Kind): string {
    if kind == Vpn then "vpn" else "ssh"
  }

  /** The request was refused because of its caller's roles, not for want of a name or a
      profile. */
  ghost predicate RefusedByRole(c: Config, ev: Event) {
    && ev.Issue? && ev.id.username != "" && ev.printable
    && (match ev.kind
        case Vpn => exists i: nat :: i < |c.profiles| && c.profiles[i].name == ev.profile
        case Ssh => exists i: nat :: i < |c.sshProfiles| && c.sshProfiles[i].name == ev.profile)
    && !A.Entitled(c, ev.kind, ev.profile, ev.id.roles)
  }

  lemma NameIsFound(c: Config, kind: Kind, name: string)
    requires Accepted(c)
    ensures GrantFor(c, kind, name).Some? <==>
      match kind
      case Vpn => exists i: nat :: i < |c.profiles| && c.profiles[i].name == name
      case Ssh => exists i: nat :: i < |c.sshProfiles| && c.sshProfiles[i].name == name
  {
    LookupBounds(c.profiles, name);
    SshLookupBounds(c.sshProfiles, name);
  }

  lemma RefusedIff(st: Settings, ev: Event)
    requires Accepted(st.config)
    ensures RefusedByRole(st.config, ev) <==>
      ev.Issue? && ev.id.username != "" && ev.printable
      && GrantFor(st.config, ev.kind, ev.profile).Some? && !Authorized(st, ev)
  {
    hide Accepted, A.Entitled, GrantFor, AllowedFor;
    if ev.Issue? {
      NameIsFound(st.config, ev.kind, ev.profile);
      A.AuthorizedIff(st, ev);
    }
  }

  /** What an event adds to the counters. */
  lemma IncsOf(st: Settings, h: History, ev: Event)
    requires Accepted(st.config)
    ensures var (more, status) := Respond(st, h, ev);
            if status.Issued? then ev.Issue? && more.incs == [IssuedInc(ev.kind, ev.profile)]
            else if RefusedByRole(st.config, ev) then more.incs == [DeniedInc(ev.kind)]
            else if status.TooMany? then more.incs == [LIMITED]
            else if ev.SignInFailure? then more.incs == [NOT_SIGNED_IN]
            else if ev.RevokeSerial? && status == SeeOther
              then exists kind :: more.incs == [RevokedInc(kind)]
            else more.incs == []
    ensures Respond(st, h, ev).1.Issued? || Respond(st, h, ev).1.TooMany? ==> !RefusedByRole(st.config, ev)
  {
    RefusedIff(st, ev);
    hide Accepted, RefusedByRole, GrantFor, AllowedFor, LimiterReply, Expiry, PublishNow, VisibleAfterRead;
    hide FirstWithSerial, IssuedInc, DeniedInc, RevokedInc;
  }

  /** The counters are told apart by the length of their names. */
  lemma IncNames(kind: Kind, profile: string)
    ensures IssuedInc(kind, profile) ==
      Inc("gruff_certificates_issued_total", ["kind", KindName(kind), "profile", profile])
    ensures DeniedInc(kind) == Inc("gruff_authorization_denied_total", ["kind", KindName(kind)])
    ensures RevokedInc(kind) == Inc("gruff_revocations_total", ["kind", KindName(kind)])
    ensures |IssuedInc(kind, profile).name| == 31 && |DeniedInc(kind).name| == 32 && |RevokedInc(kind).name| == 23
    ensures |LIMITED.name| == 24 && |NOT_SIGNED_IN.name| == 28
    ensures LIMITED == Inc("gruff_rate_limited_total", [])
    ensures NOT_SIGNED_IN == Inc("gruff_sign_in_failures_total", [])
  {
  }

  lemma SameKind(a: Kind, b: Kind)
    ensures DeniedInc(a) == DeniedInc(b) <==> a == b
    ensures RevokedInc(a) == RevokedInc(b) <==> a == b
  {
    assert DeniedInc(a).labels[1] == KindName(a) && RevokedInc(a).labels[1] == KindName(a);
    assert DeniedInc(b).labels[1] == KindName(b) && RevokedInc(b).labels[1] == KindName(b);
    assert "vpn"[0] == 'v' && "ssh"[0] == 's';
  }

  lemma IncsApart(kind: Kind, profile: string, k: Kind)
    ensures IssuedInc(kind, profile) !in {DeniedInc(k), RevokedInc(k), LIMITED, NOT_SIGNED_IN}
    ensures DeniedInc(kind) !in {RevokedInc(k), LIMITED, NOT_SIGNED_IN}
    ensures RevokedInc(kind) !in {LIMITED, NOT_SIGNED_IN} && LIMITED != NOT_SIGNED_IN
  {
    IncNames(kind, profile);
    IncNames(k, profile);
    hide IssuedInc, DeniedInc, RevokedInc, LIMITED, NOT_SIGNED_IN;
  }

  /** What of some increments is of one counter, if there is at most one. */
  lemma OneInc(incs: seq<Inc>, inc: Inc)
    requires |incs| <= 1
    ensures Occurrences(incs, inc) == if |incs| == 1 && incs[0] == inc then 1 else 0
  {
    S.OccurrencesOne(if incs == [] then inc else incs[0], inc);
  }

  lemma LimitedAdds(st: Settings)
    requires Accepted(st.config)
    ensures Adds(st, LIMITED, (ev: Event, answer: Status) => answer.TooMany?)
  {
    forall h: History, ev: Event
      ensures Occurrences(Respond(st, h, ev).0.incs, LIMITED) == if Respond(st, h, ev).1.TooMany? then 1 else 0
    {
      IncsOf(st, h, ev);
      hide Respond, RefusedByRole, Accepted, IssuedInc, DeniedInc, RevokedInc, LIMITED, NOT_SIGNED_IN, Occurrences;
      OneInc(Respond(st, h, ev).0.incs, LIMITED);
      forall kind, profile { IncsApart(kind, profile, kind); }
    }
  }

  lemma SignInAdds(st: Settings)
    requires Accepted(st.config)
    ensures Adds(st, NOT_SIGNED_IN, (ev: Event, answer: Status) => ev.SignInFailure?)
  {
    forall h: History, ev: Event
      ensures Occurrences(Respond(st, h, ev).0.incs, NOT_SIGNED_IN) == if ev.SignInFailure? then 1 else 0
    {
      IncsOf(st, h, ev);
      SignInAnswer(st, h, ev);
      hide Respond, RefusedByRole, Accepted, IssuedInc, DeniedInc, RevokedInc, LIMITED, NOT_SIGNED_IN, Occurrences;
      OneInc(Respond(st, h, ev).0.incs, NOT_SIGNED_IN);
      forall kind, profile { IncsApart(kind, profile, kind); }
    }
  }

  lemma SignInAnswer(st: Settings, h: History, ev: Event)
    ensures ev.SignInFailure? ==> Respond(st, h, ev).1 == Forbidden && !RefusedByRole(st.config, ev)
  {
  }

  lemma DeniedAdds(st: Settings, kind: Kind)
    requires Accepted(st.config)
    ensures Adds(st, DeniedInc(kind),
                 (ev: Event, answer: Status) => RefusedByRole(st.config, ev) && ev.Issue? && ev.kind == kind)
  {
    forall h: History, ev: Event
      ensures Occurrences(Respond(st, h, ev).0.incs, DeniedInc(kind))
           == if RefusedByRole(st.config, ev) && ev.Issue? && ev.kind == kind then 1 else 0
    {
      IncsOf(st, h, ev);
      RefusedIssue(st.config, ev);
      hide Respond, RefusedByRole, Accepted, IssuedInc, DeniedInc, RevokedInc, LIMITED, NOT_SIGNED_IN, Occurrences;
      OneInc(Respond(st, h, ev).0.incs, DeniedInc(kind));
      forall k, profile { IncsApart(k, profile, kind); }
      forall k { IncsApart(kind, "", k); }
      forall k { SameKind(k, kind); }
    }
  }

  lemma RefusedIssue(c: Config, ev: Event)
    ensures RefusedByRole(c, ev) ==> ev.Issue?
  {
  }

  lemma IssuedAdds(st: Settings, kind: Kind, profile: string)
    requires Accepted(st.config)
    ensures Adds(st, IssuedInc(kind, profile),
                 (ev: Event, answer: Status) =>
                   answer.Issued? && ev.Issue? && ev.kind == kind && ev.profile == profile)
  {
    forall h: History, ev: Event
      ensures Occurrences(Respond(st, h, ev).0.incs, IssuedInc(kind, profile))
           == if Respond(st, h, ev).1.Issued? && ev.Issue? && ev.kind == kind && ev.profile == profile then 1 else 0
    {
      IncsOf(st, h, ev);
      hide Respond, RefusedByRole, Accepted, IssuedInc, DeniedInc, RevokedInc, LIMITED, NOT_SIGNED_IN, Occurrences;
      OneInc(Respond(st, h, ev).0.incs, IssuedInc(kind, profile));
      forall k { IncsApart(kind, profile, k); }
      forall k, p { S.IssuedIncDistinct(kind, profile, k, p); }
    }
  }

  // ----- revocations -----

  function RevocationOf(kind: Kind): Op -> bool {
    (op: Op) => op.AddRevocation? && op.revocation.kind == kind
  }

  lemma {:induction false} NoRevocationIn(ops: seq<Op>, kind: Kind)
    requires forall i: nat | i < |ops| :: !ops[i].AddRevocation?
    ensures Filter(ops, RevocationOf(kind)) == []
  {
    if ops != [] {
      assert forall i: nat | i < |ops[1..]| :: ops[1..][i] == ops[i + 1];
      NoRevocationIn(ops[1..], kind);
    }
  }

  /** A request to revoke counts under the kind of what it revokes. */
  lemma RevokedStep(st: Settings, h: History, ev: Event, kind: Kind)
    requires Accepted(st.config)
    ensures var more := Respond(st, h, ev).0;
            Occurrences(more.incs, RevokedInc(kind)) == |Filter(more.ops, RevocationOf(kind))|
  {
    var (more, status) := Respond(st, h, ev);
    if ev.RevokeSerial? && status == SeeOther {
      RevokeStep(st, h, ev, kind);
    } else {
      EE.RevocationsMade(st, h, ev);
      NoRevocationIn(more.ops, kind);
      IncsOf(st, h, ev);
      hide Respond, RefusedByRole, Accepted, IssuedInc, DeniedInc, RevokedInc, LIMITED, NOT_SIGNED_IN, Occurrences;
      OneInc(more.incs, RevokedInc(kind));
      forall k, profile { IncsApart(k, profile, kind); }
      forall k { IncsApart(kind, "", k); }
    }
  }

  lemma RevokeStep(st: Settings, h: History, ev: Event, kind: Kind)
    requires ev.RevokeSerial? && Respond(st, h, ev).1 == SeeOther
    ensures var more := Respond(st, h, ev).0;
            Occurrences(more.incs, RevokedInc(kind)) == |Filter(more.ops, RevocationOf(kind))|
  {
    var more := Respond(st, h, ev).0;
    var k := RevokedKind(st, h, ev);
    EE.RevocationsMade(st, h, ev);
    hide Respond, RevokedInc, Occurrences;
    OneInc(more.incs, RevokedInc(kind));
    SameKind(k, kind);
    OnlySecond(more.ops, kind);
  }

  lemma RevokedKind(st: Settings, h: History, ev: Event) returns (kind: Kind)
    requires ev.RevokeSerial? && Respond(st, h, ev).1 == SeeOther
    ensures var more := Respond(st, h, ev).0;
            && more.incs == [RevokedInc(kind)] && |more.ops| >= 2
            && more.ops[1].AddRevocation? && more.ops[1].revocation.kind == kind
  {
    hide PublishNow, VisibleAfterRead, FirstWithSerial, RevokedInc;
    kind := FirstWithSerial(VisibleAfterRead(st, h, ev.id, ev.now), ev.serial).value.kind;
  }

  /** If only the second of some operations is a revocation. */
  lemma OnlySecond(ops: seq<Op>, kind: Kind)
    requires |ops| >= 2 && ops[1].AddRevocation?
    requires forall i: nat | i < |ops| && i != 1 :: !ops[i].AddRevocation?
    ensures |Filter(ops, RevocationOf(kind))| == if ops[1].revocation.kind == kind then 1 else 0
  {
    var a, b, c := [ops[0]], [ops[1]], ops[2..];
    assert ops == a + (b + c);
    NoRevocationIn(a, kind);
    assert forall i: nat | i < |c| :: c[i] == ops[i + 2];
    NoRevocationIn(c, kind);
    FilterConcat(a, b + c, RevocationOf(kind));
    FilterConcat(b, c, RevocationOf(kind));
    assert b[1..] == [];
  }

  lemma {:induction false} RevokedCount(st: Settings, events: seq<Event>, kind: Kind)
    requires Accepted(st.config)
    ensures Occurrences(Serve(st, events).incs, RevokedInc(kind))
         == |Filter(Serve(st, events).ops, RevocationOf(kind))|
  {
    hide Respond, RevokedInc, Accepted;
    if events != [] {
      var n := |events| - 1;
      var h := Serve(st, events[..n]);
      var more := Respond(st, h, events[n]).0;
      RevokedCount(st, events[..n], kind);
      RevokedStep(st, h, events[n], kind);
      S.OccurrencesConcat(h.incs, more.incs, RevokedInc(kind));
      FilterConcat(h.ops, more.ops, RevocationOf(kind));
    }
  }

  // ----- the counters -----

  /** The counters are what their help says. After any run each series, under its name
      and labels in the exposition, holds the number of requests issued a credential
      of that kind and profile; refused for their caller's roles; turned away for
      asking too often; of revocations recorded of that kind; and of sign-ins that
      failed. */
  lemma CountersSay(st: Settings, events: seq<Event>, kind: Kind, profile: string)
    requires Accepted(st.config)
    ensures Counted(st, events, Inc("gruff_certificates_issued_total", ["kind", KindName(kind), "profile", profile]),
      CountEvents(st, events, (ev: Event, answer: Status) =>
        answer.Issued? && ev.Issue? && ev.kind == kind && ev.profile == profile))
    ensures Counted(st, events, Inc("gruff_authorization_denied_total", ["kind", KindName(kind)]),
      CountEvents(st, events, (ev: Event, answer: Status) =>
        RefusedByRole(st.config, ev) && ev.Issue? && ev.kind == kind))
    ensures Counted(st, events, Inc("gruff_rate_limited_total", []),
      CountEvents(st, events, (ev: Event, answer: Status) => answer.TooMany?))
    ensures Counted(st, events, Inc("gruff_revocations_total", ["kind", KindName(kind)]),
      |Filter(Serve(st, events).ops, RevocationOf(kind))|)
    ensures Counted(st, events, Inc("gruff_sign_in_failures_total", []),
      CountEvents(st, events, (ev: Event, answer: Status) => ev.SignInFailure?))
  {
    IncNames(kind, profile);
    assert S.FromHandlers(LIMITED) && S.FromHandlers(NOT_SIGNED_IN) && S.FromHandlers(DeniedInc(kind));
    assert S.FromHandlers(RevokedInc(kind)) && S.FromHandlers(IssuedInc(kind, profile));
    hide Serve, Counted, CountEvents, IssuedInc, DeniedInc, RevokedInc, LIMITED, NOT_SIGNED_IN, KindName, Adds;
    hide S.FromHandlers, Accepted, Occurrences, RefusedByRole;
    CountedIs(st, events, LIMITED);
    CountedIs(st, events, NOT_SIGNED_IN);
    CountedIs(st, events, DeniedInc(kind));
    CountedIs(st, events, RevokedInc(kind));
    CountedIs(st, events, IssuedInc(kind, profile));
    RevokedCount(st, events, kind);
    LimitedAdds(st);
    OccurrencesCount(st, events, LIMITED, (ev: Event, answer: Status) => answer.TooMany?);
    SignInAdds(st);
    OccurrencesCount(st, events, NOT_SIGNED_IN, (ev: Event, answer: Status) => ev.SignInFailure?);
    DeniedAdds(st, kind);
    OccurrencesCount(st, events, DeniedInc(kind), (ev: Event, answer: Status) =>
      RefusedByRole(st.config, ev) && ev.Issue? && ev.kind == kind);
    IssuedAdds(st, kind, profile);
    OccurrencesCount(st, events, IssuedInc(kind, profile), (ev: Event, answer: Status) =>
      answer.Issued? && ev.Issue? && ev.kind == kind && ev.profile == profile);
  }
}
