/** From a user's request to revoke to the file a server reads. */
module EndToEnd {
  import opened Common
  import opened Sessions
  import opened Store
  import opened Portal
  import Krl
  import Publish
  import Refresh
  import AtomicFile

  /** The CAs never draw a serial twice, of either kind. */
  ghost predicate MintsDistinct(events: seq<Event>) {
    forall i: nat, j: nat | i < j < |events| && events[i].Issue? && events[j].Issue? && events[i].mint.Some? ::
      events[i].mint != events[j].mint
  }

  /** The request at k to revoke a serial succeeded. */
  ghost predicate Revoked(st: Settings, events: seq<Event>, k: nat, serial: string) {
    && k < |events| && events[k].RevokeSerial? && events[k].serial == serial
    && Respond(st, Serve(st, events[..k]), events[k]).1 == SeeOther
  }

  /** Some request to revoke the serial succeeded. */
  ghost predicate SomeRevoked(st: Settings, events: seq<Event>, serial: string) {
    exists k: nat :: Revoked(st, events, k, serial)
  }

  // ----- serials name sessions -----

  lemma SerialNamesSession(st: Settings, events: seq<Event>, a: Session, b: Session)
    requires MintsDistinct(events)
    requires a in Added(Serve(st, events).ops) && b in Added(Serve(st, events).ops) && a.serial == b.serial
    ensures a == b
  {
    EverySessionWasAuthorized(st, events, a);
    EverySessionWasAuthorized(st, events, b);
    var i: nat :| i < |events| && IssuedFor(st, events[i], a);
    var j: nat :| j < |events| && IssuedFor(st, events[j], b);
    assert i == j;
  }

  lemma {:induction false} BestWithin(s: seq<Session>, max: nat, x: Session)
    requires x in Best(s, max)
    ensures x in s
    decreases |s|
  {
    hide Worst;
    if |s| > max {
      BestWithin(Remove(s, Worst(s)), max, x);
    }
  }

  /** A revocation is of a session that is still live, by a request that named it. */
  ghost predicate RevokesSession(op: Op, s: Session) {
    && op.AddRevocation?
    && op.revocation.serial == s.serial && op.revocation.kind == s.kind && op.revocation.until == s.expiresAt
    && op.revocation.user == s.user && op.revocation.at == op.now <= s.expiresAt
  }

  /** A request to revoke that succeeds records one revocation, and nothing else does. */
  lemma RevocationsMade(st: Settings, h: History, ev: Event)
    ensures var (more, status) := Respond(st, h, ev);
            if ev.RevokeSerial? && status == SeeOther
            then |more.ops| >= 2 && forall i: nat | i < |more.ops| && i != 1 :: !more.ops[i].AddRevocation?
            else forall i: nat | i < |more.ops| :: !more.ops[i].AddRevocation?
  {
    AsksNow(st, h, ev);
    hide PublishNow, VisibleAfterRead, FirstWithSerial, LimiterReply, GrantFor, Expiry;
  }

  lemma RevocationMade(st: Settings, h: History, ev: Event)
    requires ev.RevokeSerial? && Respond(st, h, ev).1 == SeeOther
    ensures var more := Respond(st, h, ev).0;
            var found := FirstWithSerial(VisibleAfterRead(st, h, ev.id, ev.now), ev.serial);
            && found.Some? && |more.ops| >= 2 && more.ops[1].AddRevocation?
            && more.ops[1].now == ev.now && more.ops[1].revocation.serial == found.value.serial
            && more.ops[1].revocation.kind == found.value.kind
            && more.ops[1].revocation.until == found.value.expiresAt
            && more.ops[1].revocation.user == found.value.user && more.ops[1].revocation.at == ev.now
  {
    hide PublishNow, VisibleAfterRead, FirstWithSerial;
  }

  lemma RespondRevokes(st: Settings, events: seq<Event>, ev: Event)
    requires InOrder(events) && forall i: nat | i < |events| :: events[i].now <= ev.now
    ensures var h := Serve(st, events);
            var (more, status) := Respond(st, h, ev);
            if ev.RevokeSerial? && status == SeeOther
            then |more.ops| >= 2
              && (forall i: nat | i < |more.ops| && i != 1 :: !more.ops[i].AddRevocation?)
              && exists s :: s in Added(h.ops) && s.serial == ev.serial && RevokesSession(more.ops[1], s)
            else forall i: nat | i < |more.ops| :: !more.ops[i].AddRevocation?
  {
    var h := Serve(st, events);
    RevocationsMade(st, h, ev);
    if ev.RevokeSerial? && Respond(st, h, ev).1 == SeeOther {
      RevocationMade(st, h, ev);
      hide Respond, Serve, VisibleAfterRead, FirstWithSerial, Added;
      ReadShowsBest(st, events, ev.id, ev.now);
      var visible := VisibleAfterRead(st, h, ev.id, ev.now);
      FirstWithSerialFinds(visible, ev.serial);
      var s := FirstWithSerial(visible, ev.serial).value;
      VisibleIsLive(Added(h.ops), Capacity(st), ev.id, ev.now, s);
      assert RevokesSession(Respond(st, h, ev).0.ops[1], s);
    }
  }

  lemma VisibleIsLive(added: seq<Session>, max: nat, id: Identity, now: Time, s: Session)
    requires s in Visible(Best(Live(added, now), max), id)
    ensures s in added && now <= s.expiresAt
  {
    FilterMembers(Best(Live(added, now), max), OwnedBy(id.username), s);
    BestWithin(Live(added, now), max, s);
    FilterMembers(added, Unexpired(now), s);
  }

  // ----- histories grow -----

  lemma {:induction false} ServePrefix(st: Settings, events: seq<Event>, k: nat)
    requires k <= |events|
    ensures Serve(st, events[..k]).ops <= Serve(st, events).ops
  {
    hide Respond;
    if k == |events| {
      assert events[..k] == events;
    } else {
      var front := events[..|events| - 1];
      assert front[..k] == events[..k];
      ServePrefix(st, front, k);
    }
  }

  lemma ServeHolds(st: Settings, events: seq<Event>, k: nat)
    requires k < |events|
    ensures Serve(st, events[..k]).ops + Respond(st, Serve(st, events[..k]), events[k]).0.ops
         <= Serve(st, events).ops
  {
    hide Respond;
    assert events[..k + 1][..k] == events[..k];
    assert Serve(st, events[..k + 1]).ops
        == Serve(st, events[..k]).ops + Respond(st, Serve(st, events[..k]), events[k]).0.ops;
    ServePrefix(st, events, k + 1);
  }

  lemma AddedGrows(a: seq<Op>, b: seq<Op>, s: Session)
    requires a <= b && s in Added(a)
    ensures s in Added(b)
  {
    AddedConcat(a, b[|a|..]);
    assert b == a + b[|a|..];
  }

  ghost predicate RevocationExplained(st: Settings, events: seq<Event>, op: Op, k: nat, s: Session) {
    && s in Added(Serve(st, events).ops) && RevokesSession(op, s)
    && Revoked(st, events, k, s.serial) && op.now == events[k].now
  }

  lemma ExplainedLater(st: Settings, events: seq<Event>, n: nat, op: Op, k: nat, s: Session)
    requires n <= |events| && RevocationExplained(st, events[..n], op, k, s)
    ensures RevocationExplained(st, events, op, k, s)
  {
    hide Respond, Serve, Added, RevokesSession;
    ServePrefix(st, events, n);
    assert events[..k] == events[..n][..k];
    AddedGrows(Serve(st, events[..n]).ops, Serve(st, events).ops, s);
  }

  /** The last event of a run explains the revocation it records. */
  lemma LastExplained(st: Settings, events: seq<Event>, n: nat, i: nat)
    requires InOrder(events) && |events| == n + 1
    requires var more := Respond(st, Serve(st, events[..n]), events[n]).0.ops; i < |more| && more[i].AddRevocation?
    ensures exists s: Session ::
      RevocationExplained(st, events, Respond(st, Serve(st, events[..n]), events[n]).0.ops[i], n, s)
  {
    var h := Serve(st, events[..n]);
    assert forall j: nat | j < n :: events[..n][j] == events[j];
    RespondRevokes(st, events[..n], events[n]);
    RespondsNow(st, h, events[n]);
    ServePrefix(st, events, n);
    hide Respond, Serve, Added, RevokesSession;
    var more := Respond(st, h, events[n]).0.ops;
    var s :| s in Added(h.ops) && s.serial == events[n].serial && RevokesSession(more[1], s);
    AddedGrows(h.ops, Serve(st, events).ops, s);
    assert RevocationExplained(st, events, more[i], n, s);
  }

  /** Every revocation recorded comes from a request that succeeded. */
  lemma {:induction false} RevocationsExplained(st: Settings, events: seq<Event>, i: nat)
    requires InOrder(events) && i < |Serve(st, events).ops| && Serve(st, events).ops[i].AddRevocation?
    ensures exists k: nat, s: Session :: RevocationExplained(st, events, Serve(st, events).ops[i], k, s)
  {
    hide Respond, RevocationExplained;
    var n := |events| - 1;
    var front := events[..n];
    var h := Serve(st, front);
    var op := Serve(st, events).ops[i];
    assert forall j: nat | j < n :: front[j] == events[j];
    if i < |h.ops| {
      RevocationsExplained(st, front, i);
      var k: nat, s: Session :| RevocationExplained(st, front, op, k, s);
      ExplainedLater(st, events, n, op, k, s);
    } else {
      LastExplained(st, events, n, i - |h.ops|);
    }
  }

  lemma PortalSerialsDistinct(st: Settings, events: seq<Event>)
    requires InOrder(events) && MintsDistinct(events)
    ensures SerialsDistinct(Serve(st, events).ops)
  {
    var ops := Serve(st, events).ops;
    forall i: nat, j: nat | i < |ops| && j < |ops| && ops[i].AddRevocation? && ops[j].AddRevocation?
      && ops[i].revocation.serial == ops[j].revocation.serial
      ensures ops[i].revocation.kind == ops[j].revocation.kind
      ensures ops[i].revocation.until == ops[j].revocation.until
    {
      RevocationsExplained(st, events, i);
      RevocationsExplained(st, events, j);
      var k: nat, a: Session :| RevocationExplained(st, events, ops[i], k, a);
      var l: nat, b: Session :| RevocationExplained(st, events, ops[j], l, b);
      SerialNamesSession(st, events, a, b);
    }
  }

  /** Revoked in the store's terms is revoked by a request in the portal's. */
  lemma RevokedByRequest(st: Settings, events: seq<Event>, s: Session, now: Time)
    requires InOrder(events) && MintsDistinct(events) && s in Added(Serve(st, events).ops)
    ensures RevokedBy(Serve(st, events).ops, s.serial, s.kind, now)
       <==> SomeRevoked(st, events, s.serial) && now <= s.expiresAt
  {
    var ops := Serve(st, events).ops;
    if RevokedBy(ops, s.serial, s.kind, now) {
      var i: nat :| i < |ops| && ops[i].AddRevocation? && ops[i].revocation.serial == s.serial
        && now <= ops[i].revocation.until;
      RevocationsExplained(st, events, i);
      var k: nat, a: Session :| RevocationExplained(st, events, ops[i], k, a);
      SerialNamesSession(st, events, a, s);
      assert Revoked(st, events, k, s.serial);
    }
    if SomeRevoked(st, events, s.serial) && now <= s.expiresAt {
      var k: nat :| Revoked(st, events, k, s.serial);
      RequestIsRecorded(st, events, k, s);
    }
  }

  lemma RequestIsRecorded(st: Settings, events: seq<Event>, k: nat, s: Session)
    requires InOrder(events) && MintsDistinct(events) && s in Added(Serve(st, events).ops)
    requires Revoked(st, events, k, s.serial)
    ensures exists i: nat | i < |Serve(st, events).ops| :: RevokesSession(Serve(st, events).ops[i], s)
  {
    var ops, before := Serve(st, events).ops, events[..k];
    assert forall i: nat | i < k :: before[i] == events[i] && events[i].now <= events[k].now;
    RespondRevokes(st, before, events[k]);
    ServeHolds(st, events, k);
    hide Respond, Serve, RevokesSession;
    var h := Serve(st, before);
    var more := Respond(st, h, events[k]).0;
    var a :| a in Added(h.ops) && a.serial == s.serial && RevokesSession(more.ops[1], a);
    AddedGrows(h.ops, h.ops + more.ops, a);
    AddedGrows(h.ops + more.ops, ops, a);
    SerialNamesSession(st, events, a, s);
    assert (h.ops + more.ops)[|h.ops| + 1] == more.ops[1] == ops[|h.ops| + 1];
  }

  /** A credential is in the list of revocations of its kind, once, exactly while it
      has been revoked by somebody entitled to and has not expired, whatever else
      the portal has been asked in between. */
  lemma RevokedIsListedUntilExpiry(st: Settings, events: seq<Event>, s: Session, now: Time)
    requires InOrder(events) && MintsDistinct(events) && s in Added(Serve(st, events).ops)
    requires forall i: nat | i < |events| :: events[i].now <= now
    ensures CountSerial(Listed(Run(Serve(st, events).ops, Capacity(st)), s.kind, now), s.serial)
         == if SomeRevoked(st, events, s.serial) && now <= s.expiresAt then 1 else 0
  {
    var ops := Serve(st, events).ops;
    ServeUpTo(st, events, now);
    PortalSerialsDistinct(st, events);
    RevokedByRequest(st, events, s, now);
    hide Serve, Listed, RevokedBy, Revoked;
    RevocationLastsAsLongAsCredential(ops, Capacity(st), s.serial, s.kind, now);
  }

  // ----- to the servers -----

  /** SSH serials are drawn from the positive 64-bit integers and printed in
      decimal. */
  ghost predicate SshMints(events: seq<Event>) {
    forall i: nat | i < |events| && events[i].Issue? && events[i].kind == Ssh && events[i].mint.Some? ::
      Publish.IssuedSerial(events[i].mint.value)
  }

  lemma PortalSshSerials(st: Settings, events: seq<Event>)
    requires InOrder(events) && SshMints(events)
    ensures Publish.SshSerialsIssued(Serve(st, events).ops)
  {
    hide Publish.IssuedSerial;
    var ops := Serve(st, events).ops;
    forall i: nat | i < |ops| && ops[i].AddRevocation? && ops[i].revocation.kind == Ssh
      ensures Publish.IssuedSerial(ops[i].revocation.serial)
    {
      RevocationsExplained(st, events, i);
      var k: nat, s: Session :| RevocationExplained(st, events, ops[i], k, s);
      EverySessionWasAuthorized(st, events, s);
      var j: nat :| j < |events| && IssuedFor(st, events[j], s);
    }
  }

  /** sshd refuses exactly the revoked: the KRL built at now lists the serial of an
      SSH credential the portal issued just when some request to revoke it
      succeeded and it has not expired. */
  lemma KrlTracksThePortal(st: Settings, events: seq<Event>, key: Bytes, s: Session, n: nat, now: Time)
    requires InOrder(events) && MintsDistinct(events) && SshMints(events)
    requires forall i: nat | i < |events| :: events[i].now <= now
    requires s in Added(Serve(st, events).ops) && s.kind == Ssh && s.serial == Decimal(n)
    requires var listed := Listed(Run(Serve(st, events).ops, Capacity(st)), Ssh, now);
             |key| + 13 + 8 * |listed| < Krl.WORD
    ensures var krl := Publish.KrlOf(Listed(Run(Serve(st, events).ops, Capacity(st)), Ssh, now), key, now);
            && krl.Some? && Krl.Decode(krl.value).Some?
            && var sections := Krl.Decode(krl.value).value.sections;
            && |sections| == 1 && sections[0].caKey == key
            && (n in sections[0].serials
                <==> SomeRevoked(st, events, s.serial) && now <= s.expiresAt)
  {
    var ops := Serve(st, events).ops;
    ServeUpTo(st, events, now);
    PortalSerialsDistinct(st, events);
    PortalSshSerials(st, events);
    RevokedByRequest(st, events, s, now);
    hide Serve, Listed, RevokedBy, Revoked, Publish.KrlOf, Krl.Decode, Decimal;
    Publish.KrlRevokesExactlyTheRevoked(ops, Capacity(st), key, now, n);
  }
}
