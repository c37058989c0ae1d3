/** What the servers find in their files, over whole runs of the portal: which list
    is in place, what it says of each credential, and that it is current. */
module InPlace {
  import opened Common
  import opened Sessions
  import opened Store
  import opened Portal
  import opened EndToEnd
  import opened Config
  import Krl
  import Publish
  import Refresh
  import AtomicFile

  // ----- the last list put in place -----

  /** Event m put a CRL in place. */
  ghost predicate PutsCrl(st: Settings, events: seq<Event>, m: nat) {
    m < |events| && HasCrl(Respond(st, Serve(st, events[..m]), events[m]).0.puts)
  }

  ghost predicate PutsKrl(st: Settings, events: seq<Event>, m: nat) {
    m < |events| && HasKrl(Respond(st, Serve(st, events[..m]), events[m]).0.puts)
  }

  ghost predicate HasCrl(puts: seq<Publish.Put>) {
    exists put :: put in puts && put.CrlPut?
  }

  ghost predicate HasKrl(puts: seq<Publish.Put>) {
    exists put :: put in puts && put.KrlPut?
  }

  ghost predicate LastCrl(st: Settings, events: seq<Event>, m: nat) {
    PutsCrl(st, events, m) && forall k: nat | m < k < |events| :: !PutsCrl(st, events, k)
  }

  ghost predicate LastKrl(st: Settings, events: seq<Event>, m: nat) {
    PutsKrl(st, events, m) && forall k: nat | m < k < |events| :: !PutsKrl(st, events, k)
  }

  /** The revocations of a kind as event m left them. */
  function ListedAt(st: Settings, events: seq<Event>, m: nat, kind: Kind): seq<Revocation>
    requires m < |events|
  {
    Listed(Run(Serve(st, events[..m + 1]).ops, Capacity(st)), kind, events[m].now)
  }

  lemma {:induction false} InConcat(a: seq<Publish.Put>, b: seq<Publish.Put>)
    ensures Publish.CrlIn(a + b) == if HasCrl(b) then Publish.CrlIn(b) else Publish.CrlIn(a)
    ensures Publish.KrlIn(a + b) == if HasKrl(b) then Publish.KrlIn(b) else Publish.KrlIn(a)
    ensures HasCrl(b) ==> Publish.CrlIn(b).Some? && Publish.CrlPut(Publish.CrlIn(b).value) in b
    ensures HasKrl(b) ==> Publish.KrlIn(b).Some? && Publish.KrlPut(Publish.KrlIn(b).value) in b
    decreases |b|
  {
    if b == [] {
      assert a + b == a;
    } else {
      var front, last := b[..|b| - 1], b[|b| - 1];
      assert (a + b)[..|a + b| - 1] == a + front && b == front + [last];
      InConcat(a, front);
    }
  }

  lemma {:induction false} ListedAfterAsks(st: State, asks: seq<Op>, kind: Kind, now: Time, max: nat)
    requires forall i: nat | i < |asks| :: asks[i].ReadRevocations? && asks[i].now == now
    ensures Listed(Steps(st, asks, max), kind, now) == Listed(st, kind, now)
  {
    hide Listed, Step;
    if asks != [] {
      var n := |asks| - 1;
      ListedAfterAsks(st, asks[..n], kind, now, max);
      Refresh.ListedAfterRead(Steps(st, asks[..n], max), asks[n].kind, kind, now, now, max);
    }
  }

  /** What one publish puts in place is made of the revocations it leaves listed. */
  lemma PublishedIsListed(st: Settings, ops: seq<Op>, now: Time, c: Publish.Outcome, k: Publish.Outcome,
                          put: Publish.Put)
    requires put in PublishNow(st, ops, now, c, k).puts
    ensures var after := Run(ops + PublishNow(st, ops, now, c, k).asks, Capacity(st));
            match put
            case CrlPut(crl) => Publish.CrlOf(Listed(after, Vpn, now), now) == Ok(crl)
            case KrlPut(krl) =>
              st.sshKey.Some? && Publish.KrlOf(Listed(after, Ssh, now), st.sshKey.value, now) == Some(krl)
  {
    hide Publish.PublishOnce, Publish.CrlOf, Publish.KrlOf, Run, Steps, Listed;
    var state, asks := Run(ops, Capacity(st)), PublishNow(st, ops, now, c, k).asks;
    Publish.PublishPuts(SetupOf(st), state, now, c, k);
    Publish.PublishAsks(SetupOf(st), state, now, c, k);
    RunConcat(ops, asks, Capacity(st));
    ListedAfterAsks(state, asks, Vpn, now, Capacity(st));
    ListedAfterAsks(state, asks, Ssh, now, Capacity(st));
  }

  lemma PutIsListed(st: Settings, h: History, ev: Event, put: Publish.Put)
    requires put in Respond(st, h, ev).0.puts
    ensures var after := Run(After(st, h, ev).ops, Capacity(st));
            match put
            case CrlPut(crl) => Publish.CrlOf(Listed(after, Vpn, ev.now), ev.now) == Ok(crl)
            case KrlPut(krl) =>
              st.sshKey.Some? && Publish.KrlOf(Listed(after, Ssh, ev.now), st.sshKey.value, ev.now) == Some(krl)
  {
    hide PublishNow, VisibleAfterRead, FirstWithSerial, LimiterReply, GrantFor, Expiry, Run, Listed;
    hide Publish.CrlOf, Publish.KrlOf;
    if ev.PublishLists? {
      PublishedIsListed(st, h.ops, ev.now, ev.crlOutcome, ev.krlOutcome, put);
    } else {
      var s := FirstWithSerial(VisibleAfterRead(st, h, ev.id, ev.now), ev.serial).value;
      var r := Revocation(s.serial, s.kind, s.user, ev.now, s.expiresAt);
      var ops := [ReadOp(ev.id, ev.now), AddRevocation(r, ev.now)];
      var asks := PublishNow(st, h.ops + ops, ev.now, ev.crlOutcome, ev.krlOutcome).asks;
      PublishedIsListed(st, h.ops + ops, ev.now, ev.crlOutcome, ev.krlOutcome, put);
      assert h.ops + (ops + asks) == h.ops + ops + asks;
    }
  }

  lemma EventPuts(st: Settings, events: seq<Event>, m: nat)
    requires m < |events|
    ensures PutsCrl(st, events, m) ==>
      var puts := Respond(st, Serve(st, events[..m]), events[m]).0.puts;
      && Publish.CrlIn(puts).Some?
      && Publish.CrlOf(ListedAt(st, events, m, Vpn), events[m].now) == Ok(Publish.CrlIn(puts).value)
    ensures PutsKrl(st, events, m) ==>
      var puts := Respond(st, Serve(st, events[..m]), events[m]).0.puts;
      && Publish.KrlIn(puts).Some? && st.sshKey.Some?
      && Publish.KrlOf(ListedAt(st, events, m, Ssh), st.sshKey.value, events[m].now) == Publish.KrlIn(puts)
  {
    var before := Serve(st, events[..m]);
    assert events[..m + 1][..m] == events[..m];
    assert Serve(st, events[..m + 1]) == After(st, before, events[m]);
    var puts := Respond(st, before, events[m]).0.puts;
    InConcat([], puts);
    hide Respond, Serve, Listed, Run, Publish.CrlOf, Publish.KrlOf;
    if PutsCrl(st, events, m) {
      PutIsListed(st, before, events[m], Publish.CrlPut(Publish.CrlIn(puts).value));
    }
    if PutsKrl(st, events, m) {
      PutIsListed(st, before, events[m], Publish.KrlPut(Publish.KrlIn(puts).value));
    }
  }

  lemma PrefixPuts(st: Settings, events: seq<Event>, n: nat, k: nat)
    requires k < n <= |events|
    ensures PutsCrl(st, events[..n], k) <==> PutsCrl(st, events, k)
    ensures PutsKrl(st, events[..n], k) <==> PutsKrl(st, events, k)
  {
    assert events[..n][..k] == events[..k];
  }

  lemma ServeSnoc(st: Settings, events: seq<Event>)
    requires events != []
    ensures var n := |events| - 1;
            var before := Serve(st, events[..n]);
            Serve(st, events).puts == before.puts + Respond(st, before, events[n]).0.puts
  {
  }

  /** The CRL in place is that of the last event that put one there. */
  lemma {:induction false} CrlInPlace(st: Settings, events: seq<Event>, m: nat)
    requires LastCrl(st, events, m)
    ensures Publish.CrlIn(Serve(st, events).puts).Some?
    ensures Publish.CrlOf(ListedAt(st, events, m, Vpn), events[m].now)
         == Ok(Publish.CrlIn(Serve(st, events).puts).value)
  {
    hide Serve, Respond, Listed, Run, Publish.CrlOf, Publish.KrlOf, HasCrl, HasKrl;
    var n := |events| - 1;
    var front := events[..n];
    ServeSnoc(st, events);
    InConcat(Serve(st, front).puts, Respond(st, Serve(st, front), events[n]).0.puts);
    if m == n {
      EventPuts(st, events, m);
    } else {
      assert !PutsCrl(st, events, n);
      PrefixPuts(st, events, n, m);
      forall k: nat | m < k < n ensures !PutsCrl(st, front, k) {
        PrefixPuts(st, events, n, k);
      }
      assert front[..m + 1] == events[..m + 1];
      CrlInPlace(st, front, m);
    }
  }

  lemma {:induction false} KrlInPlace(st: Settings, events: seq<Event>, m: nat)
    requires LastKrl(st, events, m)
    ensures Publish.KrlIn(Serve(st, events).puts).Some? && st.sshKey.Some?
    ensures Publish.KrlOf(ListedAt(st, events, m, Ssh), st.sshKey.value, events[m].now)
         == Publish.KrlIn(Serve(st, events).puts)
  {
    hide Serve, Respond, Listed, Run, Publish.CrlOf, Publish.KrlOf, HasCrl, HasKrl;
    var n := |events| - 1;
    var front := events[..n];
    ServeSnoc(st, events);
    InConcat(Serve(st, front).puts, Respond(st, Serve(st, front), events[n]).0.puts);
    if m == n {
      EventPuts(st, events, m);
    } else {
      assert !PutsKrl(st, events, n);
      PrefixPuts(st, events, n, m);
      forall k: nat | m < k < n ensures !PutsKrl(st, front, k) {
        PrefixPuts(st, events, n, k);
      }
      assert front[..m + 1] == events[..m + 1];
      KrlInPlace(st, front, m);
    }
  }

  // ----- what it says of a credential -----

  /** VPN serials are drawn from the natural numbers and printed in decimal. */
  ghost predicate VpnMints(events: seq<Event>) {
    forall i: nat | i < |events| && events[i].Issue? && events[i].kind == Vpn && events[i].mint.Some? ::
      Publish.PrintedNat(events[i].mint.value)
  }

  lemma PrefixInOrder(st: Settings, events: seq<Event>, m: nat)
    requires InOrder(events) && MintsDistinct(events) && m < |events|
    ensures var prefix := events[..m + 1];
            && InOrder(prefix) && MintsDistinct(prefix)
            && (VpnMints(events) ==> VpnMints(prefix)) && (SshMints(events) ==> SshMints(prefix))
            && forall i: nat | i < |prefix| :: prefix[i].now <= events[m].now
  {
    hide Publish.PrintedNat, Publish.IssuedSerial;
    assert forall i: nat | i <= m :: events[..m + 1][i] == events[i];
  }

  /** Some request up to event m to revoke the serial succeeded. */
  ghost predicate RevokedUpTo(st: Settings, events: seq<Event>, m: nat, serial: string) {
    exists k: nat :: k <= m && Revoked(st, events, k, serial)
  }

  lemma RevokedInPrefix(st: Settings, events: seq<Event>, m: nat, serial: string)
    requires m < |events|
    ensures var prefix := events[..m + 1];
            RevokedUpTo(st, events, m, serial) <==> SomeRevoked(st, prefix, serial)
  {
    hide Respond, Serve;
    var prefix := events[..m + 1];
    assert forall k: nat | k <= m :: prefix[..k] == events[..k] && prefix[k] == events[k];
    assert forall k: nat | k <= m :: Revoked(st, events, k, serial) <==> Revoked(st, prefix, k, serial);
    assert forall k: nat :: Revoked(st, prefix, k, serial) ==> k <= m;
  }

  /** A request that succeeded named a session issued before it. */
  lemma RevokedWasIssued(st: Settings, events: seq<Event>, k: nat, serial: string)
    requires InOrder(events) && Revoked(st, events, k, serial)
    ensures exists s :: s in Added(Serve(st, events).ops) && s.serial == serial
  {
    var before := events[..k];
    assert forall i: nat | i < k :: before[i] == events[i] && events[i].now <= events[k].now;
    RespondRevokes(st, before, events[k]);
    ServePrefix(st, events, k);
    hide Respond, Serve, RevokesSession, Added;
    var s :| s in Added(Serve(st, before).ops) && s.serial == serial;
    AddedGrows(Serve(st, before).ops, Serve(st, events).ops, s);
  }

  lemma RecordedWasIssued(st: Settings, events: seq<Event>, i: nat)
    requires InOrder(events) && i < |Serve(st, events).ops| && Serve(st, events).ops[i].AddRevocation?
    ensures exists s :: s in Added(Serve(st, events).ops) && s.serial == Serve(st, events).ops[i].revocation.serial
  {
    hide Serve, Added, Revoked, InOrder;
    RevocationsExplained(st, events, i);
    var k: nat, s: Session :| RevocationExplained(st, events, Serve(st, events).ops[i], k, s);
  }

  /** Neither the store nor a request revokes by one point of a run what is only
      issued later. */
  lemma NotYetIssued(st: Settings, events: seq<Event>, n: nat, s: Session, now: Time)
    requires InOrder(events) && MintsDistinct(events) && n <= |events| && InOrder(events[..n])
    requires s in Added(Serve(st, events).ops) && s !in Added(Serve(st, events[..n]).ops)
    ensures !RevokedBy(Serve(st, events[..n]).ops, s.serial, s.kind, now)
    ensures forall k: nat :: !Revoked(st, events[..n], k, s.serial)
  {
    var prefix := events[..n];
    var ops := Serve(st, prefix).ops;
    ServePrefix(st, events, n);
    hide Serve, Added, Revoked, InOrder, MintsDistinct;
    forall a | a in Added(ops) ensures a.serial != s.serial {
      AddedGrows(ops, Serve(st, events).ops, a);
      if a.serial == s.serial {
        SerialNamesSession(st, events, a, s);
      }
    }
    forall i: nat | i < |ops| && ops[i].AddRevocation? ensures ops[i].revocation.serial != s.serial {
      RecordedWasIssued(st, prefix, i);
    }
    forall k: nat ensures !Revoked(st, prefix, k, s.serial) {
      if Revoked(st, prefix, k, s.serial) {
        RevokedWasIssued(st, prefix, k, s.serial);
      }
    }
  }

  /** As far as event m the store and the requests agree on what has been revoked. */
  lemma RevokedAt(st: Settings, events: seq<Event>, m: nat, s: Session)
    requires InOrder(events) && MintsDistinct(events) && m < |events|
    requires s in Added(Serve(st, events).ops)
    ensures RevokedBy(Serve(st, events[..m + 1]).ops, s.serial, s.kind, events[m].now)
       <==> RevokedUpTo(st, events, m, s.serial) && events[m].now <= s.expiresAt
  {
    hide Serve, Added, Revoked, RevokedUpTo, RevokedBy, VpnMints, SshMints;
    PrefixInOrder(st, events, m);
    RevokedInPrefix(st, events, m, s.serial);
    var prefix, now := events[..m + 1], events[m].now;
    hide InOrder, MintsDistinct;
    if s in Added(Serve(st, prefix).ops) {
      RevokedByRequest(st, prefix, s, now);
    } else {
      NotYetIssued(st, events, m + 1, s, now);
    }
  }

  lemma PortalVpnSerials(st: Settings, events: seq<Event>)
    requires InOrder(events) && VpnMints(events)
    ensures Publish.VpnSerialsIssued(Serve(st, events).ops)
  {
    hide Publish.PrintedNat;
    var ops := Serve(st, events).ops;
    forall i: nat | i < |ops| && ops[i].AddRevocation? && ops[i].revocation.kind == Vpn
      ensures Publish.PrintedNat(ops[i].revocation.serial)
    {
      RevocationsExplained(st, events, i);
      var k: nat, s: Session :| RevocationExplained(st, events, ops[i], k, s);
      EverySessionWasAuthorized(st, events, s);
      var j: nat :| j < |events| && IssuedFor(st, events[j], s);
    }
  }

  /** The crl.pem in place lists an issued VPN credential exactly when a request to
      revoke it had succeeded, and it had not expired, when that list was put there,
      whatever has happened since. */
  lemma CrlInPlaceTracksThePortal(st: Settings, events: seq<Event>, m: nat, s: Session, n: nat)
    requires InOrder(events) && MintsDistinct(events) && VpnMints(events)
    requires s in Added(Serve(st, events).ops) && s.kind == Vpn && s.serial == Decimal(n)
    requires LastCrl(st, events, m)
    ensures var crl := Publish.CrlIn(Serve(st, events).puts);
            && crl.Some?
            && (Publish.CrlRevokes(crl.value, n)
                <==> RevokedUpTo(st, events, m, s.serial) && events[m].now <= s.expiresAt)
            && crl.value.thisUpdate <= events[m].now < crl.value.nextUpdate
  {
    hide Serve, Added, LastCrl, RevokedUpTo, RevokedBy, Listed, Run, Decimal, Publish.CrlOf, Publish.CrlRevokes;
    LastCrlPuts(st, events, m);
    var prefix, now := events[..m + 1], events[m].now;
    CrlInPlace(st, events, m);
    RevokedAt(st, events, m, s);
    PrefixInOrder(st, events, m);
    hide InOrder, MintsDistinct, VpnMints;
    ServeUpTo(st, prefix, now);
    PortalSerialsDistinct(st, prefix);
    PortalVpnSerials(st, prefix);
    Publish.CrlRevokesExactlyTheRevoked(Serve(st, prefix).ops, Capacity(st), now, n);
  }

  lemma LastCrlPuts(st: Settings, events: seq<Event>, m: nat)
    requires LastCrl(st, events, m)
    ensures m < |events|
  {
  }

  lemma LastKrlPuts(st: Settings, events: seq<Event>, m: nat)
    requires LastKrl(st, events, m)
    ensures m < |events|
  {
  }

  /** The krl in place decodes, and lists an issued SSH credential exactly when a
      request to revoke it had succeeded, and it had not expired, when that list was
      put there. */
  lemma KrlInPlaceTracksThePortal(st: Settings, events: seq<Event>, m: nat, s: Session, n: nat)
    requires InOrder(events) && MintsDistinct(events) && SshMints(events)
    requires s in Added(Serve(st, events).ops) && s.kind == Ssh && s.serial == Decimal(n)
    requires LastKrl(st, events, m)
    requires st.sshKey.Some? && |st.sshKey.value| + 13 + 8 * |ListedAt(st, events, m, Ssh)| < Krl.WORD
    ensures var krl := Publish.KrlIn(Serve(st, events).puts);
            && krl.Some? && Krl.Decode(krl.value).Some?
            && var sections := Krl.Decode(krl.value).value.sections;
            && |sections| == 1 && sections[0].caKey == st.sshKey.value
            && (n in sections[0].serials
                <==> RevokedUpTo(st, events, m, s.serial) && events[m].now <= s.expiresAt)
  {
    hide Serve, Added, LastKrl, RevokedUpTo, RevokedBy, Listed, Run, Decimal, Publish.KrlOf, Krl.Decode;
    LastKrlPuts(st, events, m);
    var prefix, now := events[..m + 1], events[m].now;
    KrlInPlace(st, events, m);
    RevokedAt(st, events, m, s);
    PrefixInOrder(st, events, m);
    hide InOrder, MintsDistinct, SshMints;
    ServeUpTo(st, prefix, now);
    PortalSerialsDistinct(st, prefix);
    PortalSshSerials(st, prefix);
    Publish.KrlRevokesExactlyTheRevoked(Serve(st, prefix).ops, Capacity(st), st.sshKey.value, now, n);
  }

  lemma {:induction false} SomeLastCrl(st: Settings, events: seq<Event>, p: nat) returns (m: nat)
    requires PutsCrl(st, events, p)
    ensures p <= m && LastCrl(st, events, m)
    decreases |events| - p
  {
    hide PutsCrl;
    if k: nat :| p < k < |events| && PutsCrl(st, events, k) {
      m := SomeLastCrl(st, events, k);
    } else {
      m := p;
    }
  }

  lemma {:induction false} SomeLastKrl(st: Settings, events: seq<Event>, p: nat) returns (m: nat)
    requires PutsKrl(st, events, p)
    ensures p <= m && LastKrl(st, events, m)
    decreases |events| - p
  {
    hide PutsKrl;
    if k: nat :| p < k < |events| && PutsKrl(st, events, k) {
      m := SomeLastKrl(st, events, k);
    } else {
      m := p;
    }
  }

  /** Once a request to revoke has succeeded and a publish with it or after it has
      replaced crl.pem, every crl.pem in place until the credential expires lists
      it: no later publish, failed or not, and no other request takes it off. */
  lemma RevokedStaysInCrl(st: Settings, events: seq<Event>, k: nat, p: nat, s: Session, n: nat)
    requires InOrder(events) && MintsDistinct(events) && VpnMints(events)
    requires s in Added(Serve(st, events).ops) && s.kind == Vpn && s.serial == Decimal(n)
    requires Revoked(st, events, k, s.serial) && k <= p && PutsCrl(st, events, p)
    requires forall i: nat | i < |events| :: events[i].now <= s.expiresAt
    ensures var crl := Publish.CrlIn(Serve(st, events).puts); crl.Some? && Publish.CrlRevokes(crl.value, n)
  {
    hide Serve, Added, InOrder, MintsDistinct, VpnMints, Revoked, PutsCrl, Decimal, Publish.CrlRevokes;
    var m := SomeLastCrl(st, events, p);
    LastCrlPuts(st, events, m);
    CrlInPlaceTracksThePortal(st, events, m, s, n);
  }

  /** And the same for krl. */
  lemma RevokedStaysInKrl(st: Settings, events: seq<Event>, k: nat, p: nat, s: Session, n: nat)
    requires InOrder(events) && MintsDistinct(events) && SshMints(events)
    requires s in Added(Serve(st, events).ops) && s.kind == Ssh && s.serial == Decimal(n)
    requires Revoked(st, events, k, s.serial) && k <= p && PutsKrl(st, events, p)
    requires forall i: nat | i < |events| :: events[i].now <= s.expiresAt
    requires st.sshKey.Some?
    requires forall m: nat | m < |events| :: |st.sshKey.value| + 13 + 8 * |ListedAt(st, events, m, Ssh)| < Krl.WORD
    ensures var krl := Publish.KrlIn(Serve(st, events).puts);
            && krl.Some? && Krl.Decode(krl.value).Some?
            && var sections := Krl.Decode(krl.value).value.sections;
            |sections| == 1 && n in sections[0].serials
  {
    hide Serve, Added, InOrder, MintsDistinct, SshMints, Revoked, PutsKrl, Decimal, Krl.Decode, ListedAt;
    var m := SomeLastKrl(st, events, p);
    LastKrlPuts(st, events, m);
    KrlInPlaceTracksThePortal(st, events, m, s, n);
  }

  // ----- a serial of 0 withholds the list -----

  /** SSH serials as newSerial can draw them: any 64-bit integer, 0 included. */
  ghost predicate SshDraws(events: seq<Event>) {
    forall i: nat | i < |events| && events[i].Issue? && events[i].kind == Ssh && events[i].mint.Some? ::
      Drawn(events[i].mint.value)
  }

  ghost predicate Drawn(serial: string) {
    exists n: nat | n < Krl.WORD * Krl.WORD :: serial == Decimal(n)
  }

  lemma DrawnParses(serial: string)
    requires Drawn(serial)
    ensures ParseUint64(serial).Ok? && (ParseUint64(serial).value == 0 <==> serial == Decimal(0))
  {
    var n: nat :| n < Krl.WORD * Krl.WORD && serial == Decimal(n);
    ParsePrintedUint64(n);
    if Decimal(n) == Decimal(0) {
      DecimalInjective(n, 0);
    }
  }

  /** The session is an SSH one with serial 0, revoked and not yet expired. */
  ghost predicate ZeroRevoked(st: Settings, events: seq<Event>, s: Session, now: Time) {
    && s in Added(Serve(st, events).ops) && s.kind == Ssh && s.serial == Decimal(0) && now <= s.expiresAt
    && SomeRevoked(st, events, Decimal(0))
  }

  ghost predicate RevokedAs(st: Settings, events: seq<Event>, r: Revocation, s: Session, k: nat) {
    && s in Added(Serve(st, events).ops) && s.kind == r.kind && s.serial == r.serial && s.expiresAt == r.until
    && s.user == r.user && Revoked(st, events, k, s.serial) && r.at == events[k].now
  }

  /** Every entry listed is of a session the portal issued, with the time of a request
      that revoked it. */
  lemma ListedWasIssued(st: Settings, events: seq<Event>, kind: Kind, now: Time, r: Revocation)
    requires InOrder(events) && r in Listed(Run(Serve(st, events).ops, Capacity(st)), kind, now)
    ensures now <= r.until && r.kind == kind && exists s: Session, k: nat :: RevokedAs(st, events, r, s, k)
  {
    var ops := Serve(st, events).ops;
    Publish.ListedMembers(Run(ops, Capacity(st)), kind, now, r);
    EntriesWereRevoked(ops, Capacity(st), r);
    hide Serve, Added, Revoked, InOrder, Listed, Run;
    var i: nat :| i < |ops| && ops[i].AddRevocation? && ops[i].revocation == r;
    RevocationsExplained(st, events, i);
    var k: nat, s: Session :| RevocationExplained(st, events, ops[i], k, s);
    assert RevokedAs(st, events, r, s, k);
  }

  lemma IssuedWasDrawn(st: Settings, events: seq<Event>, s: Session)
    requires SshDraws(events) && s in Added(Serve(st, events).ops) && s.kind == Ssh
    ensures Drawn(s.serial)
  {
    hide Drawn;
    EverySessionWasAuthorized(st, events, s);
    var j: nat :| j < |events| && IssuedFor(st, events[j], s);
  }

  /** Over runs of the portal with any serials drawn, the KRL cannot be built exactly
      while a revoked SSH credential with serial 0 is unexpired: that one withholds
      the revocation of every other. */
  lemma KrlWithheldIff(st: Settings, events: seq<Event>, key: Bytes, now: Time)
    requires InOrder(events) && MintsDistinct(events) && SshDraws(events)
    requires forall i: nat | i < |events| :: events[i].now <= now
    ensures Publish.KrlOf(Listed(Run(Serve(st, events).ops, Capacity(st)), Ssh, now), key, now) == None
       <==> exists s :: ZeroRevoked(st, events, s, now)
  {
    hide Serve, Added, Revoked, InOrder, MintsDistinct, SshDraws, Listed, Run, Drawn, Decimal, ParseUint64;
    hide Publish.KrlOf;
    var listed := Listed(Run(Serve(st, events).ops, Capacity(st)), Ssh, now);
    Publish.KrlFailsIff(listed, key, now);
    forall r | r in listed
      ensures ParseUint64(r.serial).Ok?
      ensures ParseUint64(r.serial).value == 0 ==> exists s :: ZeroRevoked(st, events, s, now)
    {
      ListedWasIssued(st, events, Ssh, now, r);
      var s: Session, k: nat :| RevokedAs(st, events, r, s, k);
      IssuedWasDrawn(st, events, s);
      DrawnParses(r.serial);
      assert s.serial == Decimal(0) ==> ZeroRevoked(st, events, s, now);
    }
    if s :| ZeroRevoked(st, events, s, now) {
      RevokedIsListedUntilExpiry(st, events, s, now);
      CountedIsIn(listed, s.serial);
      var r :| r in listed && r.serial == s.serial;
      IssuedWasDrawn(st, events, s);
      DrawnParses(r.serial);
    }
  }

  lemma PrefixDraws(events: seq<Event>, n: nat)
    requires n <= |events| && SshDraws(events)
    ensures SshDraws(events[..n])
  {
    hide Drawn;
    assert forall i: nat | i < n :: events[..n][i] == events[i];
  }

  lemma ZeroWithheldAt(st: Settings, events: seq<Event>, m: nat, s: Session, key: Bytes)
    requires InOrder(events) && MintsDistinct(events) && SshDraws(events) && m < |events|
    requires ZeroRevoked(st, events[..m + 1], s, events[m].now)
    ensures Publish.KrlOf(ListedAt(st, events, m, Ssh), key, events[m].now) == None
  {
    hide ZeroRevoked, Serve, Listed, Run, Publish.KrlOf, VpnMints, SshMints, InOrder, MintsDistinct, SshDraws;
    PrefixInOrder(st, events, m);
    PrefixDraws(events, m + 1);
    KrlWithheldIff(st, events[..m + 1], key, events[m].now);
  }

  /** And so no publish meanwhile replaces krl, whether on that request, on another or
      on a tick. */
  lemma ZeroWithholdsFile(st: Settings, events: seq<Event>, m: nat, s: Session)
    requires InOrder(events) && MintsDistinct(events) && SshDraws(events) && m < |events|
    requires ZeroRevoked(st, events[..m + 1], s, events[m].now)
    ensures !PutsKrl(st, events, m)
  {
    hide ZeroRevoked, PutsKrl, Respond, Serve, ListedAt, Publish.KrlOf, InOrder, MintsDistinct, SshDraws;
    EventPuts(st, events, m);
    if PutsKrl(st, events, m) {
      ZeroWithheldAt(st, events, m, s, st.sshKey.value);
    }
  }

  const OPS_ONLY: Settings :=
    Settings(Config("", "", Some(0), 10, true, "/etc/gruff", [],
                    [SshProfile("ops", HOUR, ["staff"], ["ops"], [], [])], ""),
             0, Some([]))
  const ALICE: Identity := Identity("alice", ["staff"], false)

  /** Alice is issued an SSH credential with some serial, and revokes it. */
  function RevokeRun(n: nat): seq<Event> {
    [Issue(Ssh, ALICE, true, "ops", Some(Decimal(n)), "", 0),
     RevokeSerial(ALICE, Decimal(n), Publish.Done, Publish.Done, 0)]
  }

  function AlicesSession(n: nat): Session {
    Session("alice", "ops", Ssh, Decimal(n), "", 0, HOUR)
  }

  lemma AliceIsIssued(n: nat)
    ensures Serve(OPS_ONLY, RevokeRun(n)[..1]).ops == [AddSession(AlicesSession(n), 0)]
  {
    hide Decimal;
    assert RevokeRun(n)[..1][..0] == [];
    var roles := ["staff"];
    assert roles[0] in roles && AllowedFor(roles, roles);
    assert TruncateToSecond(0) == 0;
  }

  lemma AliceMayRevoke(n: nat)
    ensures Revoked(OPS_ONLY, RevokeRun(n), 1, Decimal(n))
  {
    var run, s := RevokeRun(n), AlicesSession(n);
    AliceIsIssued(n);
    hide Serve, Respond, Decimal;
    AddedOne(s, 0);
    FilterAll([s], Unexpired(0));
    assert Best([s], 10) == [s];
    assert s in [s];
    WhoCanRevoke(OPS_ONLY, run[..1], ALICE, Decimal(n), Publish.Done, Publish.Done, 0);
  }

  /** Alice's is the only session of the run. */
  lemma AliceAlone(n: nat)
    ensures AlicesSession(n) in Added(Serve(OPS_ONLY, RevokeRun(n)).ops)
    ensures forall s | s in Added(Serve(OPS_ONLY, RevokeRun(n)).ops) :: s.serial == Decimal(n)
  {
    var run := RevokeRun(n);
    AliceIsIssued(n);
    hide Serve, Respond, IssuedFor, OPS_ONLY, Decimal, Added;
    ServePrefix(OPS_ONLY, run, 1);
    AddedOne(AlicesSession(n), 0);
    AddedGrows(Serve(OPS_ONLY, run[..1]).ops, Serve(OPS_ONLY, run).ops, AlicesSession(n));
    forall s | s in Added(Serve(OPS_ONLY, run).ops) ensures s.serial == Decimal(n) {
      EverySessionWasAuthorized(OPS_ONLY, run, s);
      var i: nat :| i < |run| && IssuedFor(OPS_ONLY, run[i], s);
      IssuedForDraws(OPS_ONLY, run[i], s);
    }
  }

  lemma IssuedForDraws(st: Settings, ev: Event, s: Session)
    requires IssuedFor(st, ev, s)
    ensures ev.Issue? && ev.mint == Some(s.serial)
  {
  }

  lemma RevokeRunIsPlain(n: nat)
    requires n < Krl.WORD * Krl.WORD
    ensures var run := RevokeRun(n);
            && InOrder(run) && MintsDistinct(run) && SshDraws(run) && run[..2] == run
            && forall i: nat | i < |run| :: run[i].now <= 0
  {
    hide Decimal;
    assert Drawn(Decimal(n));
  }

  /** Where there is no VPN CA a request to revoke that succeeds, its write done,
      replaces krl if and only if the KRL can be built. */
  lemma RevokePutsKrl(st: Settings, events: seq<Event>, m: nat, serial: string)
    requires Revoked(st, events, m, serial) && events[m].krlOutcome.Done?
    requires st.config.configdirEnabled && st.config.profiles == [] && st.sshKey.Some?
    ensures PutsKrl(st, events, m)
       <==> Publish.KrlOf(ListedAt(st, events, m, Ssh), st.sshKey.value, events[m].now).Some?
  {
    hide Serve, VisibleAfterRead, FirstWithSerial, Run, Listed, Publish.KrlOf, Publish.CrlOf;
    var ev, h := events[m], Serve(st, events[..m]);
    var s := FirstWithSerial(VisibleAfterRead(st, h, ev.id, ev.now), ev.serial).value;
    var r := Revocation(s.serial, s.kind, s.user, ev.now, s.expiresAt);
    var ops := h.ops + [ReadOp(ev.id, ev.now), AddRevocation(r, ev.now)];
    KrlOnlyPublish(st, ops, ev.now, ev.crlOutcome);
    var p := PublishNow(st, ops, ev.now, ev.crlOutcome, ev.krlOutcome);
    assert h.ops + ([ReadOp(ev.id, ev.now), AddRevocation(r, ev.now)] + p.asks) == ops + p.asks;
    ServeNext(st, events, m);
    hide PublishNow, Publish.PublishOnce;
    assert Serve(st, events[..m + 1]).ops == ops + p.asks;
  }

  lemma ServeNext(st: Settings, events: seq<Event>, m: nat)
    requires m < |events|
    ensures Serve(st, events[..m + 1]) == After(st, Serve(st, events[..m]), events[m])
  {
    assert events[..m + 1][..m] == events[..m];
  }

  lemma KrlOnlyPublish(st: Settings, ops: seq<Op>, now: Time, c: Publish.Outcome)
    requires st.config.configdirEnabled && st.config.profiles == [] && st.sshKey.Some?
    ensures var p := PublishNow(st, ops, now, c, Publish.Done);
            var after := Run(ops + p.asks, Capacity(st));
            HasKrl(p.puts) <==> Publish.KrlOf(Listed(after, Ssh, now), st.sshKey.value, now).Some?
  {
    hide Run, Steps, Listed, Publish.KrlOf;
    var state, p := Run(ops, Capacity(st)), PublishNow(st, ops, now, c, Publish.Done);
    RunConcat(ops, p.asks, Capacity(st));
    ListedAfterAsks(state, p.asks, Ssh, now, Capacity(st));
    assert p.puts == [] || p.puts[0] in p.puts;
  }

  /** Both families have members. Whatever 64-bit serial Alice's credential draws, her
      request to revoke it is answered as a success; krl is replaced if and only if
      the serial is not 0. */
  lemma RevokeRunPublishesIff(n: nat)
    requires n < Krl.WORD * Krl.WORD
    ensures Revoked(OPS_ONLY, RevokeRun(n), 1, Decimal(n))
    ensures AlicesSession(n) in Added(Serve(OPS_ONLY, RevokeRun(n)).ops)
    ensures PutsKrl(OPS_ONLY, RevokeRun(n), 1) <==> n != 0
  {
    var run := RevokeRun(n);
    RevokeRunIsPlain(n);
    AliceMayRevoke(n);
    AliceAlone(n);
    hide Serve, Respond, Added, Revoked, Decimal, InOrder, MintsDistinct, SshDraws, PutsKrl, Listed, Run;
    hide Publish.KrlOf;
    RevokePutsKrl(OPS_ONLY, run, 1, Decimal(n));
    KrlWithheldIff(OPS_ONLY, run, [], 0);
    if n == 0 {
      assert ZeroRevoked(OPS_ONLY, run, AlicesSession(n), 0);
    } else if s :| ZeroRevoked(OPS_ONLY, run, s, 0) {
      DecimalInjective(n, 0);
    }
  }

  lemma {:induction false} CountedIsIn(revoked: seq<Revocation>, serial: string)
    requires CountSerial(revoked, serial) > 0
    ensures exists r :: r in revoked && r.serial == serial
  {
    if revoked[0].serial == serial {
      assert revoked[0] in revoked;
    } else {
      CountedIsIn(revoked[1..], serial);
      var r :| r in revoked[1..] && r.serial == serial;
      assert r in revoked;
    }
  }

  // ----- that it is current -----

  /** What a run of the portal attempts: each event in turn, over by some time, with a
      CRL put in place or not. */
  ghost function Attempts(st: Settings, events: seq<Event>, overs: seq<Time>): seq<Refresh.Attempt>
    requires |overs| == |events|
  {
    if events == [] then []
    else
      var n := |events| - 1;
      var ok := HasCrl(Respond(st, Serve(st, events[..n]), events[n]).0.puts);
      Attempts(st, events[..n], overs[..n]) + [Refresh.Attempt(events[n].now, overs[n], ok)]
  }

  function NextUpdate(crl: Option<Publish.Crl>): Option<Time> {
    match crl
    case None => None
    case Some(c) => Some(c.nextUpdate)
  }

  lemma PutNextUpdate(st: Settings, events: seq<Event>, n: nat)
    requires n < |events|
    ensures var puts := Respond(st, Serve(st, events[..n]), events[n]).0.puts;
            HasCrl(puts) ==>
              NextUpdate(Publish.CrlIn(puts)) == Some(TruncateToSecond(events[n].now) + Publish.CRL_VALIDITY)
  {
    hide Serve, Respond, Listed, Run, HasCrl, HasKrl;
    EventPuts(st, events, n);
    assert HasCrl(Respond(st, Serve(st, events[..n]), events[n]).0.puts) ==> PutsCrl(st, events, n);
  }

  lemma AttemptsSnoc(st: Settings, events: seq<Event>, overs: seq<Time>)
    requires |overs| == |events| && events != []
    ensures var n := |events| - 1;
            var ok := HasCrl(Respond(st, Serve(st, events[..n]), events[n]).0.puts);
            Attempts(st, events, overs)
            == Attempts(st, events[..n], overs[..n]) + [Refresh.Attempt(events[n].now, overs[n], ok)]
  {
    hide Serve, Respond;
  }

  lemma NextUpdateSnoc(attempts: seq<Refresh.Attempt>, a: Refresh.Attempt, t: Time)
    requires a.over <= t
    ensures Refresh.NextUpdateAt(attempts + [a], t)
         == if a.ok then Some(TruncateToSecond(a.clock) + Publish.CRL_VALIDITY) else Refresh.NextUpdateAt(attempts, t)
  {
    assert (attempts + [a])[..|attempts|] == attempts;
  }

  lemma NothingPut(st: Settings, events: seq<Event>, overs: seq<Time>, t: Time)
    requires events == [] && overs == []
    ensures Refresh.NextUpdateAt(Attempts(st, events, overs), t) == None
    ensures NextUpdate(Publish.CrlIn(Serve(st, events).puts)) == None
  {
  }

  lemma {:induction false} NextUpdateInPlace(st: Settings, events: seq<Event>, overs: seq<Time>, t: Time)
    requires |overs| == |events| && forall i: nat | i < |overs| :: overs[i] <= t
    ensures Refresh.NextUpdateAt(Attempts(st, events, overs), t)
         == NextUpdate(Publish.CrlIn(Serve(st, events).puts))
  {
    hide Serve, Respond, HasCrl, HasKrl, Attempts, Refresh.NextUpdateAt, NextUpdate, Publish.CrlIn;
    if events == [] {
      NothingPut(st, events, overs, t);
    } else {
      var n := |events| - 1;
      var front := events[..n];
      var puts := Respond(st, Serve(st, front), events[n]).0.puts;
      assert forall i: nat | i < n :: overs[..n][i] == overs[i];
      NextUpdateInPlace(st, front, overs[..n], t);
      AttemptsSnoc(st, events, overs);
      NextUpdateSnoc(Attempts(st, front, overs[..n]), Refresh.Attempt(events[n].now, overs[n], HasCrl(puts)), t);
      ServeSnoc(st, events);
      InConcat(Serve(st, front).puts, puts);
      PutNextUpdate(st, events, n);
    }
  }

  /** The crl.pem in place is always current: in a run of the portal in which a
      publish at startup goes well, every hourly tick's publish is over with slack to
      spare and fewer than 23 ticks fail in a row, at every moment t after startup
      the nextUpdate of the list in place is still to come. */
  lemma CrlInPlaceIsCurrent(st: Settings, events: seq<Event>, overs: seq<Time>, ticks: seq<Refresh.Attempt>,
                            start: Time, slack: Time, t: Time)
    requires |overs| == |events| && forall i: nat | i < |overs| :: overs[i] <= t
    requires var attempts := Attempts(st, events, overs);
             && Refresh.Sequential(attempts) && attempts != [] && attempts[0].ok && attempts[0].over <= t
             && attempts[0].clock >= start - (slack - SECOND)
             && Refresh.Ticked(attempts, ticks, start, slack)
    requires slack >= SECOND && Refresh.TickedUntil(ticks, start, slack, t) && Refresh.NoLongOutage(ticks)
    ensures var crl := Publish.CrlIn(Serve(st, events).puts); crl.Some? && t < crl.value.nextUpdate
  {
    hide Serve, Attempts, Refresh.NextUpdateAt, Refresh.Sequential, Refresh.Ticked, Refresh.TickedUntil;
    hide Refresh.NoLongOutage;
    Refresh.CrlIsAlwaysCurrent(Attempts(st, events, overs), ticks, start, slack, t);
    NextUpdateInPlace(st, events, overs, t);
  }

  // ----- the bytes readers find -----

  /** A key revocation list the publisher can make, short enough for its framing. */
  ghost predicate BuiltKrl(key: Bytes, b: Bytes) {
    exists revoked, now :: Builds(key, revoked, now, b)
  }

  ghost predicate Builds(key: Bytes, revoked: seq<Revocation>, now: Time, b: Bytes) {
    Publish.KrlOf(revoked, key, now) == Some(b) && |key| + 13 + 8 * |revoked| < Krl.WORD
  }

  /** The bytes are a key revocation list for one CA, and nothing more. */
  ghost predicate DecodesFor(key: Bytes, b: Bytes) {
    && Krl.Decode(b).Some?
    && |Krl.Decode(b).value.sections| == 1 && Krl.Decode(b).value.sections[0].caKey == key
  }

  lemma BuiltFrom(key: Bytes, revoked: seq<Revocation>, now: Time, b: Bytes) returns (serials: seq<nat>)
    requires Builds(key, revoked, now, b)
    ensures b == Krl.KrlBytes(serials, key, now) && Krl.Serials(serials)
    ensures Krl.SectionSize(serials, key) < Krl.WORD
  {
    hide Krl.KrlBytes;
    serials := Publish.KrlSerials(revoked).value;
    SerialsParsed(revoked);
    forall i: nat | i < |serials| ensures serials[i] != 0 {
      assert serials[i] in serials;
    }
  }

  lemma BuiltDecodes(key: Bytes, b: Bytes)
    requires BuiltKrl(key, b)
    ensures DecodesFor(key, b)
  {
    hide Builds, Krl.Decode, Krl.KrlBytes;
    var revoked, now :| Builds(key, revoked, now, b);
    var serials := BuiltFrom(key, revoked, now, b);
    hide Krl.Serials, Krl.SectionSize;
    Krl.KrlRoundTrip(serials, key, now);
  }

  lemma {:induction false} SerialsParsed(revoked: seq<Revocation>)
    requires Publish.KrlSerials(revoked).Ok?
    ensures var serials := Publish.KrlSerials(revoked).value;
            && |serials| == |revoked|
            && forall i: nat | i < |serials| :: serials[i] < Krl.WORD * Krl.WORD
  {
    assert Krl.WORD * Krl.WORD == 0x1_0000_0000_0000_0000;
    hide AllDigits, DigitsValue;
    if revoked != [] {
      SerialsParsed(revoked[..|revoked| - 1]);
    }
  }

  /** The krl servers read is always a whole list: with any number of publishers at
      once, any write failing and any crashes, what is found under the name is what
      was there before or a list that decodes to its end. */
  lemma KrlFileDecodes(s: AtomicFile.System, steps: seq<AtomicFile.Step>, key: Bytes)
    requires AtomicFile.Initial(s) && AtomicFile.ValidRun(s, steps, false)
    requires AtomicFile.FinishGood(s, steps, (b: Bytes) => BuiltKrl(key, b))
    ensures var found := AtomicFile.Read(AtomicFile.Exec(s, steps));
            found == s.initial || (found.Some? && DecodesFor(key, found.value))
  {
    hide AtomicFile.Initial, AtomicFile.ValidRun, AtomicFile.FinishGood, AtomicFile.Exec, AtomicFile.Read, BuiltKrl;
    AtomicFile.TargetIsGood(s, steps, (b: Bytes) => BuiltKrl(key, b));
    var found := AtomicFile.Read(AtomicFile.Exec(s, steps));
    if found != s.initial {
      BuiltDecodes(key, found.value);
    }
  }
}
