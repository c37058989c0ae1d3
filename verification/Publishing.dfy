/** When the lists are put in place, what they then say, and what is in the files. */
module Publishing {
  import opened Common
  import opened Sessions
  import opened Store
  import opened Config
  import opened Portal
  import opened EndToEnd
  import opened InPlace
  import A = Answers
  import P = Publish
  import Krl
  import AtomicFile

  // ----- which events publish -----

  /** A publish of its own, or a request to revoke that succeeded. */
  ghost predicate Publishes(st: Settings, events: seq<Event>, m: nat)
    requires m < |events|
  {
    events[m].PublishLists? || (events[m].RevokeSerial? && A.AnswerAt(st, events, m) == SeeOther)
  }

  function CrlOutcome(ev: Event): P.Outcome
    requires ev.PublishLists? || ev.RevokeSerial?
  {
    match ev
    case PublishLists(crl, _, _) => crl
    case RevokeSerial(_, _, crl, _, _) => crl
  }

  function KrlOutcome(ev: Event): P.Outcome
    requires ev.PublishLists? || ev.RevokeSerial?
  {
    match ev
    case PublishLists(_, krl, _) => krl
    case RevokeSerial(_, _, _, krl, _) => krl
  }

  /** An optional sign and then decimal digits, at least one. */
  predicate DecimalInteger(s: string) {
    || (|s| > 0 && forall i | 0 <= i < |s| :: '0' <= s[i] <= '9')
    || (|s| > 1 && (s[0] == '-' || s[0] == '+') && forall i | 1 <= i < |s| :: '0' <= s[i] <= '9')
  }

  /** Every VPN serial revoked as event m left things is a decimal integer. */
  ghost predicate CrlParses(st: Settings, events: seq<Event>, m: nat)
    requires m < |events|
  {
    forall r | r in ListedAt(st, events, m, Vpn) :: DecimalInteger(r.serial)
  }

  /** Every SSH serial revoked as event m left things is a positive 64-bit integer. */
  ghost predicate KrlParses(st: Settings, events: seq<Event>, m: nat)
    requires m < |events|
  {
    forall r | r in ListedAt(st, events, m, Ssh) ::
      r.serial != [] && AllDigits(r.serial) && 0 < DigitsValue(r.serial) < 0x1_0000_0000_0000_0000
  }

  lemma ParsesDecimal(s: string)
    ensures P.ParseBigInt(s).Some? <==> DecimalInteger(s)
  {
    hide DigitsValue;
    if s != [] && (s[0] == '-' || s[0] == '+') {
      assert forall i | 1 <= i < |s| :: s[1..][i - 1] == s[i];
      assert forall i | 0 <= i < |s[1..]| :: s[1..][i] == s[i + 1];
    }
  }

  lemma {:induction false} CrlBuiltIff(revoked: seq<Revocation>)
    ensures P.CrlEntries(revoked).Ok? <==> forall r | r in revoked :: DecimalInteger(r.serial)
  {
    hide P.ParseBigInt, DecimalInteger;
    if revoked != [] {
      var front, last := revoked[..|revoked| - 1], revoked[|revoked| - 1];
      CrlBuiltIff(front);
      ParsesDecimal(last.serial);
      assert revoked == front + [last];
    }
  }

  // ----- one publish -----

  /** One publish of a deployment with either CA or both, told case by case. */
  lemma OnePublish(st: Settings, ops: seq<Op>, now: Time, c: P.Outcome, k: P.Outcome)
    ensures var p := PublishNow(st, ops, now, c, k);
            var after := Run(ops + p.asks, Capacity(st));
            var crlOk := P.CrlOf(Listed(after, Vpn, now), now).Ok?;
            var krlOk := st.sshKey.Some? && P.KrlOf(Listed(after, Ssh, now), st.sshKey.value, now).Some?;
            var vpn := st.config.profiles != [];
            var enabled := st.config.configdirEnabled;
            var reached := enabled && (vpn ==> crlOk && c.Done?);
            && (HasCrl(p.puts) <==> enabled && vpn && crlOk && !c.Untouched?)
            && (HasKrl(p.puts) <==> reached && krlOk && !k.Untouched?)
            && (p.ok <==> !enabled || (reached && (st.sshKey.Some? ==> krlOk && k.Done?)))
  {
    var state := Run(ops, Capacity(st));
    var p := PublishNow(st, ops, now, c, k);
    RunConcat(ops, p.asks, Capacity(st));
    P.PublishAsks(SetupOf(st), state, now, c, k);
    hide Run, Steps, Listed, P.CrlOf, P.KrlOf;
    ListedAfterAsks(state, p.asks, Vpn, now, Capacity(st));
    ListedAfterAsks(state, p.asks, Ssh, now, Capacity(st));
    PutsSeen(p.puts);
    hide HasCrl, HasKrl;
  }

  lemma PutsSeen(puts: seq<P.Put>)
    requires |puts| <= 2
    ensures HasCrl(puts) <==> (|puts| > 0 && puts[0].CrlPut?) || (|puts| > 1 && puts[1].CrlPut?)
    ensures HasKrl(puts) <==> (|puts| > 0 && puts[0].KrlPut?) || (|puts| > 1 && puts[1].KrlPut?)
  {
    if |puts| > 0 {
      assert puts[0] in puts;
    }
    if |puts| > 1 {
      assert puts[1] in puts;
    }
  }

  // ----- every publish of a run -----

  /** A publishing event publishes after some operations and adds nothing else. */
  lemma PublishingEvent(st: Settings, h: History, ev: Event) returns (ops: seq<Op>)
    requires ev.PublishLists? || (ev.RevokeSerial? && Respond(st, h, ev).1 == SeeOther)
    ensures var p := PublishNow(st, ops, ev.now, CrlOutcome(ev), KrlOutcome(ev));
            && Respond(st, h, ev).0.puts == p.puts && After(st, h, ev).ops == ops + p.asks
            && (ev.PublishLists? ==> Respond(st, h, ev).1 == PublishedLists(p.ok))
  {
    hide PublishNow, VisibleAfterRead, FirstWithSerial;
    if ev.PublishLists? {
      ops := h.ops;
    } else {
      var s := FirstWithSerial(VisibleAfterRead(st, h, ev.id, ev.now), ev.serial).value;
      var more := [ReadOp(ev.id, ev.now),
                   AddRevocation(Revocation(s.serial, s.kind, s.user, ev.now, s.expiresAt), ev.now)];
      ops := h.ops + more;
      var asks := PublishNow(st, ops, ev.now, ev.crlOutcome, ev.krlOutcome).asks;
      assert h.ops + (more + asks) == ops + asks;
    }
  }

  lemma OtherEvent(st: Settings, h: History, ev: Event)
    requires !ev.PublishLists? && !(ev.RevokeSerial? && Respond(st, h, ev).1 == SeeOther)
    ensures Respond(st, h, ev).0.puts == []
  {
    hide PublishNow, VisibleAfterRead, FirstWithSerial, LimiterReply, GrantFor, AllowedFor, Expiry;
  }

  /** crl.pem is replaced by an event of a run if and only if it publishes, publishing
      is enabled, there are VPN profiles, every VPN serial then revoked parses, and
      the write does not leave the file as it was. */
  lemma CrlIsPutIff(st: Settings, events: seq<Event>, m: nat)
    requires m < |events|
    ensures PutsCrl(st, events, m) <==>
            && Publishes(st, events, m) && st.config.configdirEnabled && st.config.profiles != []
            && CrlParses(st, events, m) && CrlOutcome(events[m]) != P.Untouched
  {
    var h, ev := Serve(st, events[..m]), events[m];
    ServeNext(st, events, m);
    hide Serve, Respond, Run, Listed, DecimalInteger, HasCrl, HasKrl;
    if Publishes(st, events, m) {
      var ops := PublishingEvent(st, h, ev);
      OnePublish(st, ops, ev.now, CrlOutcome(ev), KrlOutcome(ev));
      CrlBuiltIff(ListedAt(st, events, m, Vpn));
    } else {
      OtherEvent(st, h, ev);
      NoneIn([]);
    }
  }

  lemma NoneIn(puts: seq<P.Put>)
    requires puts == []
    ensures !HasCrl(puts) && !HasKrl(puts)
  {
  }

  lemma KrlBuiltIff(revoked: seq<Revocation>, key: Bytes, now: Time)
    ensures P.KrlOf(revoked, key, now).Some? <==> forall r | r in revoked ::
      r.serial != [] && AllDigits(r.serial) && 0 < DigitsValue(r.serial) < 0x1_0000_0000_0000_0000
  {
    P.KrlFailsIff(revoked, key, now);
    hide P.KrlOf, AllDigits, DigitsValue;
  }

  /** With both CAs the KRL is reached only if the CRL was written without an error. */
  ghost predicate KrlReached(st: Settings, events: seq<Event>, m: nat)
    requires m < |events|
  {
    && Publishes(st, events, m) && st.config.configdirEnabled
    && (st.config.profiles != [] ==> CrlParses(st, events, m) && CrlOutcome(events[m]) == P.Done)
  }

  /** krl is replaced if and only if it is reached, there is an SSH CA, every SSH serial
      then revoked is a positive 64-bit integer, and the write does not leave the file
      as it was. */
  lemma KrlIsPutIff(st: Settings, events: seq<Event>, m: nat)
    requires m < |events|
    ensures PutsKrl(st, events, m) <==>
            && KrlReached(st, events, m) && st.sshKey.Some?
            && KrlParses(st, events, m) && KrlOutcome(events[m]) != P.Untouched
  {
    var h, ev := Serve(st, events[..m]), events[m];
    hide Serve, Respond, Run, Listed, DecimalInteger, HasCrl, HasKrl, ListedAt;
    if Publishes(st, events, m) {
      CrlBuiltIff(ListedAt(st, events, m, Vpn));
      KrlBuiltIff(ListedAt(st, events, m, Ssh), if st.sshKey.Some? then st.sshKey.value else [], ev.now);
      KrlPutBy(st, events, m);
    } else {
      OtherEvent(st, h, ev);
      NoneIn([]);
    }
  }

  lemma KrlPutBy(st: Settings, events: seq<Event>, m: nat)
    requires m < |events| && Publishes(st, events, m)
    ensures var ev := events[m];
            PutsKrl(st, events, m) <==>
            && st.config.configdirEnabled
            && (st.config.profiles != [] ==>
                P.CrlOf(ListedAt(st, events, m, Vpn), ev.now).Ok? && CrlOutcome(ev) == P.Done)
            && st.sshKey.Some? && P.KrlOf(ListedAt(st, events, m, Ssh), st.sshKey.value, ev.now).Some?
            && KrlOutcome(ev) != P.Untouched
  {
    var h, ev := Serve(st, events[..m]), events[m];
    ServeNext(st, events, m);
    hide Serve, Respond, Run, Listed, HasCrl, HasKrl, P.CrlOf, P.KrlOf;
    var ops := PublishingEvent(st, h, ev);
    OnePublish(st, ops, ev.now, CrlOutcome(ev), KrlOutcome(ev));
  }

  /** A publish returns without an error if and only if publishing is disabled or every
      list there is a CA for could be built and written. */
  lemma PublishIsOkIff(st: Settings, events: seq<Event>, m: nat)
    requires m < |events| && events[m].PublishLists?
    ensures var answer := A.AnswerAt(st, events, m);
            var crlWell := st.config.profiles != [] ==> CrlParses(st, events, m) && CrlOutcome(events[m]) == P.Done;
            var krlWell := st.sshKey.Some? ==> KrlParses(st, events, m) && KrlOutcome(events[m]) == P.Done;
            && answer.PublishedLists?
            && (answer.ok <==> (st.config.configdirEnabled ==> crlWell && krlWell))
  {
    var h, ev := Serve(st, events[..m]), events[m];
    ServeNext(st, events, m);
    hide Serve, Respond, Run, Listed, DecimalInteger, HasCrl, HasKrl;
    var ops := PublishingEvent(st, h, ev);
    OnePublish(st, ops, ev.now, CrlOutcome(ev), KrlOutcome(ev));
    CrlBuiltIff(ListedAt(st, events, m, Vpn));
    KrlBuiltIff(ListedAt(st, events, m, Ssh), if st.sshKey.Some? then st.sshKey.value else [], ev.now);
  }

  // ----- with serials as they are issued -----

  lemma PrintedIsDecimal(serial: string)
    requires P.PrintedNat(serial)
    ensures DecimalInteger(serial)
  {
    var n: nat :| serial == Decimal(n);
    P.ParseBigDecimal(n);
    ParsesDecimal(serial);
  }

  /** VPN serials as issued always parse, so nothing but the write can keep a publish
      from replacing crl.pem. */
  lemma IssuedCrlIsPutIff(st: Settings, events: seq<Event>, m: nat)
    requires InOrder(events) && VpnMints(events) && m < |events|
    ensures PutsCrl(st, events, m) <==>
            && Publishes(st, events, m) && st.config.configdirEnabled && st.config.profiles != []
            && CrlOutcome(events[m]) != P.Untouched
  {
    hide PutsCrl, Publishes, CrlParses, ListedAt, InOrder, VpnMints;
    CrlIsPutIff(st, events, m);
    IssuedCrlParses(st, events, m);
  }

  lemma ListedVpn(st: Settings, events: seq<Event>, m: nat)
    requires InOrder(events) && VpnMints(events) && m < |events|
    ensures forall r | r in ListedAt(st, events, m, Vpn) :: P.PrintedNat(r.serial)
  {
    var prefix := events[..m + 1];
    assert forall i: nat | i < |prefix| :: prefix[i] == events[i];
    assert VpnMints(prefix) && InOrder(prefix);
    PortalVpnSerials(st, prefix);
    var ops := Serve(st, prefix).ops;
    hide Serve, P.PrintedNat, Run, Listed;
    forall r | r in ListedAt(st, events, m, Vpn) ensures P.PrintedNat(r.serial) {
      P.ListedMembers(Run(ops, Capacity(st)), Vpn, events[m].now, r);
      EntriesWereRevoked(ops, Capacity(st), r);
    }
  }

  lemma IssuedIsUint64(serial: string)
    requires P.IssuedSerial(serial)
    ensures serial != [] && AllDigits(serial) && 0 < DigitsValue(serial) < 0x1_0000_0000_0000_0000
  {
    P.ParseIssued(serial);
  }

  lemma ListedSsh(st: Settings, events: seq<Event>, m: nat)
    requires InOrder(events) && SshMints(events) && m < |events|
    ensures forall r | r in ListedAt(st, events, m, Ssh) :: P.IssuedSerial(r.serial)
  {
    var prefix := events[..m + 1];
    assert forall i: nat | i < |prefix| :: prefix[i] == events[i];
    assert SshMints(prefix) && InOrder(prefix);
    PortalSshSerials(st, prefix);
    var ops := Serve(st, prefix).ops;
    hide Serve, P.IssuedSerial, Run, Listed;
    forall r | r in ListedAt(st, events, m, Ssh) ensures P.IssuedSerial(r.serial) {
      P.ListedMembers(Run(ops, Capacity(st)), Ssh, events[m].now, r);
      EntriesWereRevoked(ops, Capacity(st), r);
    }
  }

  lemma IssuedCrlParses(st: Settings, events: seq<Event>, m: nat)
    requires InOrder(events) && VpnMints(events) && m < |events|
    ensures CrlParses(st, events, m)
  {
    hide DecimalInteger, P.PrintedNat, ListedAt, InOrder, VpnMints;
    ListedVpn(st, events, m);
    forall r | r in ListedAt(st, events, m, Vpn) ensures DecimalInteger(r.serial) {
      PrintedIsDecimal(r.serial);
    }
  }

  /** Nor, with SSH serials as issued and not 0, can anything but the writes keep a
      publish from replacing krl. */
  lemma IssuedKrlIsPutIff(st: Settings, events: seq<Event>, m: nat)
    requires InOrder(events) && VpnMints(events) && SshMints(events) && m < |events|
    ensures PutsKrl(st, events, m) <==>
            && Publishes(st, events, m) && st.config.configdirEnabled && st.sshKey.Some?
            && (st.config.profiles != [] ==> CrlOutcome(events[m]) == P.Done) && KrlOutcome(events[m]) != P.Untouched
  {
    hide PutsKrl, Publishes, P.IssuedSerial, ListedAt, InOrder, VpnMints, SshMints, CrlParses, AllDigits, DigitsValue;
    KrlIsPutIff(st, events, m);
    IssuedCrlParses(st, events, m);
    ListedSsh(st, events, m);
    forall r | r in ListedAt(st, events, m, Ssh)
      ensures r.serial != [] && AllDigits(r.serial) && 0 < DigitsValue(r.serial) < 0x1_0000_0000_0000_0000
    {
      IssuedIsUint64(r.serial);
    }
  }

  // ----- what the lists say, and what is in the files -----

  /** The list has an entry for each revocation, in order, dated to the second, and is
      current for a day from the second it was made. */
  ghost predicate CrlSays(crl: P.Crl, listed: seq<Revocation>, now: Time) {
    && |crl.entries| == |listed|
    && (forall k: nat | k < |listed| ::
          && crl.entries[k].serial >= 0 && listed[k].serial == Decimal(crl.entries[k].serial)
          && crl.entries[k].at == listed[k].at - listed[k].at % SECOND)
    && crl.thisUpdate == now - now % SECOND
    && crl.nextUpdate == crl.thisUpdate + 24 * 3600 * 1_000_000_000
  }

  lemma BuiltCrlSays(listed: seq<Revocation>, now: Time, crl: P.Crl)
    requires P.CrlOf(listed, now) == Ok(crl) && forall r | r in listed :: P.PrintedNat(r.serial)
    ensures CrlSays(crl, listed, now)
  {
    hide P.PrintedNat, Decimal;
    assert forall k: nat | k < |listed| :: listed[k] in listed;
    P.CrlEntriesOfIssued(listed);
    forall k: nat | k < |listed|
      ensures crl.entries[k].serial >= 0 && listed[k].serial == Decimal(crl.entries[k].serial)
      ensures crl.entries[k].at == listed[k].at - listed[k].at % SECOND
    {
      assert P.EntryFor(crl.entries[k], listed[k]);
    }
  }

  /** The CRL in place says what had been revoked when it was put there. */
  lemma CrlInPlaceSays(st: Settings, events: seq<Event>, m: nat)
    requires InOrder(events) && VpnMints(events) && LastCrl(st, events, m)
    ensures m < |events| && P.CrlIn(Serve(st, events).puts).Some?
    ensures CrlSays(P.CrlIn(Serve(st, events).puts).value, ListedAt(st, events, m, Vpn), events[m].now)
  {
    LastCrlPuts(st, events, m);
    CrlInPlace(st, events, m);
    ListedVpn(st, events, m);
    hide CrlSays, ListedAt, Serve, LastCrl, P.CrlOf, P.PrintedNat;
    BuiltCrlSays(ListedAt(st, events, m, Vpn), events[m].now, P.CrlIn(Serve(st, events).puts).value);
  }

  lemma FilesHoldPuts(p: Portal)
    requires p.Valid()
    ensures P.CrlIn(p.h.puts).Some? ==>
      AtomicFile.Read(p.publisher.crlFile.sys) == Some(p.publisher.pem(P.CrlIn(p.h.puts).value))
    ensures P.KrlIn(p.h.puts).Some? ==> AtomicFile.Read(p.publisher.krlFile.sys) == P.KrlIn(p.h.puts)
  {
    hide AtomicFile.Read, P.CrlIn, P.KrlIn, p.LimiterIs, p.StoreIs, p.CountersAre;
  }

  lemma LatestCrlSays(st: Settings, events: seq<Event>, m: nat)
    requires |events| == m + 1 && InOrder(events) && VpnMints(events)
    requires Publishes(st, events, m) && CrlOutcome(events[m]) != P.Untouched
    requires st.config.configdirEnabled && st.config.profiles != []
    ensures P.CrlIn(Serve(st, events).puts).Some?
    ensures CrlSays(P.CrlIn(Serve(st, events).puts).value, ListedAt(st, events, m, Vpn), events[m].now)
  {
    hide Serve, Publishes, CrlSays, ListedAt, PutsCrl, InOrder, VpnMints, P.CrlIn;
    IssuedCrlIsPutIff(st, events, m);
    CrlInPlaceSays(st, events, m);
  }

  /** After a publish whose write replaced crl.pem, what readers of the file find is
      the encoding of a list of exactly what is revoked. */
  lemma PublishedFileSays(p: Portal, events: seq<Event>, m: nat)
    requires p.Valid() && p.h == Serve(p.st, events)
    requires |events| == m + 1 && InOrder(events) && VpnMints(events)
    requires Publishes(p.st, events, m) && CrlOutcome(events[m]) != P.Untouched
    requires p.st.config.configdirEnabled && p.st.config.profiles != []
    ensures exists crl :: AtomicFile.Read(p.publisher.crlFile.sys) == Some(p.publisher.pem(crl))
                       && CrlSays(crl, ListedAt(p.st, events, m, Vpn), events[m].now)
  {
    FilesHoldPuts(p);
    hide p.Valid, Serve, Publishes, CrlSays, ListedAt, InOrder, VpnMints, AtomicFile.Read, P.CrlIn, CrlOutcome;
    LatestCrlSays(p.st, events, m);
  }

  /** The bytes decode, to their end, to the serials revoked, in order, for the CA's
      key, with the second the list was made as version and date, and nothing else. */
  ghost predicate KrlSays(b: Bytes, key: Bytes, listed: seq<Revocation>, now: Time) {
    && Krl.Decode(b).Some?
    && var d := Krl.Decode(b).value;
    && d.flags == 0 && d.comment == [0x67, 0x72, 0x75, 0x66, 0x66] && d.krlVersion == d.generated
    && (0 <= now < 0x1_0000_0000_0000_0000 * SECOND ==> d.generated * SECOND <= now < d.generated * SECOND + SECOND)
    && |d.sections| == 1 && d.sections[0].caKey == key && |d.sections[0].serials| == |listed|
    && forall k: nat | k < |listed| :: listed[k].serial == Decimal(d.sections[0].serials[k])
  }

  lemma DateOf(now: Time)
    requires 0 <= now < 0x1_0000_0000_0000_0000 * SECOND
    ensures var d := Krl.Unix(now) % (Krl.WORD * Krl.WORD); d * SECOND <= now < d * SECOND + SECOND
  {
    var d := Krl.Unix(now);
    assert d * SECOND <= now < d * SECOND + SECOND;
    assert 0 <= d < Krl.WORD * Krl.WORD;
  }

  lemma BuiltKrlSays(listed: seq<Revocation>, key: Bytes, now: Time, b: Bytes)
    requires P.KrlOf(listed, key, now) == Some(b) && forall r | r in listed :: P.IssuedSerial(r.serial)
    requires |key| + 13 + 8 * |listed| < Krl.WORD
    ensures KrlSays(b, key, listed, now)
  {
    hide P.IssuedSerial, Decimal, Krl.Decode, Krl.KrlBytes, Krl.Unix;
    assert forall k: nat | k < |listed| :: listed[k] in listed;
    P.KrlSerialsOfIssued(listed);
    var serials := P.KrlSerials(listed).value;
    Krl.KrlRoundTrip(serials, key, now);
    if 0 <= now < 0x1_0000_0000_0000_0000 * SECOND {
      DateOf(now);
    }
  }

  /** The krl in place says what had been revoked when it was put there. */
  lemma KrlInPlaceSays(st: Settings, events: seq<Event>, m: nat)
    requires InOrder(events) && SshMints(events) && LastKrl(st, events, m)
    requires m < |events| && st.sshKey.Some?
    requires |st.sshKey.value| + 13 + 8 * |ListedAt(st, events, m, Ssh)| < Krl.WORD
    ensures P.KrlIn(Serve(st, events).puts).Some?
    ensures KrlSays(P.KrlIn(Serve(st, events).puts).value, st.sshKey.value, ListedAt(st, events, m, Ssh), events[m].now)
  {
    KrlInPlace(st, events, m);
    ListedSsh(st, events, m);
    hide KrlSays, ListedAt, Serve, LastKrl, P.KrlOf, P.IssuedSerial;
    BuiltKrlSays(ListedAt(st, events, m, Ssh), st.sshKey.value, events[m].now,
                 P.KrlIn(Serve(st, events).puts).value);
  }

  lemma LatestKrlSays(st: Settings, events: seq<Event>, m: nat)
    requires |events| == m + 1 && InOrder(events) && VpnMints(events) && SshMints(events)
    requires Publishes(st, events, m) && st.config.configdirEnabled && st.sshKey.Some?
    requires st.config.profiles != [] ==> CrlOutcome(events[m]) == P.Done
    requires KrlOutcome(events[m]) != P.Untouched
    requires |st.sshKey.value| + 13 + 8 * |ListedAt(st, events, m, Ssh)| < Krl.WORD
    ensures P.KrlIn(Serve(st, events).puts).Some?
    ensures KrlSays(P.KrlIn(Serve(st, events).puts).value, st.sshKey.value, ListedAt(st, events, m, Ssh), events[m].now)
  {
    hide Serve, Publishes, KrlSays, ListedAt, PutsKrl, InOrder, VpnMints, SshMints, P.KrlIn;
    IssuedKrlIsPutIff(st, events, m);
    KrlInPlaceSays(st, events, m);
  }

  /** And likewise for krl. */
  lemma PublishedKrlSays(p: Portal, events: seq<Event>, m: nat)
    requires p.Valid() && p.h == Serve(p.st, events)
    requires |events| == m + 1 && InOrder(events) && VpnMints(events) && SshMints(events)
    requires Publishes(p.st, events, m) && p.st.config.configdirEnabled && p.st.sshKey.Some?
    requires p.st.config.profiles != [] ==> CrlOutcome(events[m]) == P.Done
    requires KrlOutcome(events[m]) != P.Untouched
    requires |p.st.sshKey.value| + 13 + 8 * |ListedAt(p.st, events, m, Ssh)| < Krl.WORD
    ensures var found := AtomicFile.Read(p.publisher.krlFile.sys);
            && found.Some?
            && KrlSays(found.value, p.st.sshKey.value, ListedAt(p.st, events, m, Ssh), events[m].now)
  {
    FilesHoldPuts(p);
    hide p.Valid, Serve, Publishes, KrlSays, ListedAt, InOrder, VpnMints, SshMints, AtomicFile.Read, P.KrlIn;
    hide CrlOutcome, KrlOutcome;
    LatestKrlSays(p.st, events, m);
  }

  /** Every entry listed carries the user of the credential and the time of a request
      that revoked it, and lasts as long as the credential. */
  lemma EntriesAreOfRequests(st: Settings, events: seq<Event>, m: nat, kind: Kind, r: Revocation)
    requires InOrder(events) && m < |events| && r in ListedAt(st, events, m, kind)
    ensures exists k: nat, s: Session ::
      && k <= m && s in Added(Serve(st, events[..m + 1]).ops) && Revoked(st, events[..m + 1], k, r.serial)
      && r == Revocation(s.serial, s.kind, s.user, events[k].now, s.expiresAt)
  {
    var prefix := events[..m + 1];
    assert forall i: nat | i < |prefix| :: prefix[i] == events[i];
    hide Serve, Added, Listed, Run;
    ListedWasIssued(st, prefix, kind, events[m].now, r);
    var s: Session, k: nat :| RevokedAs(st, prefix, r, s, k);
  }
}
