/** From the store to the published lists: what the CRL and the KRL contain, and
    what publishing them once does. */
module Publish {
  import opened Common
  import opened Sessions
  import opened Store
  import Krl

  // ----- the lists, from the store's answers -----

  /** big.Int.SetString(s, 10). */
  function ParseBigInt(s: string): Option<int> {
    if s == [] then None
    else
      var digits := if s[0] == '-' || s[0] == '+' then s[1..] else s;
      if digits == [] || !AllDigits(digits) then None
      else Some(if s[0] == '-' then -(DigitsValue(digits) as int) else DigitsValue(digits))
  }

  datatype CrlEntry = CrlEntry(serial: int, at: Time)

  datatype Crl = Crl(entries: seq<CrlEntry>, thisUpdate: Time, nextUpdate: Time)

  const CRL_VALIDITY: Time := DAY

  function CrlEntries(revoked: seq<Revocation>): Result<seq<CrlEntry>> {
    if revoked == [] then Ok([])
    else
      var last := revoked[|revoked| - 1];
      match CrlEntries(revoked[..|revoked| - 1])
      case Err(e) => Err(e)
      case Ok(entries) =>
        match ParseBigInt(last.serial)
        case None => Err("serial is not a decimal integer")
        case Some(n) => Ok(entries + [CrlEntry(n, TruncateToSecond(last.at))])
  }

  function CrlOf(revoked: seq<Revocation>, now: Time): Result<Crl> {
    match CrlEntries(revoked)
    case Err(e) => Err(e)
    case Ok(entries) => Ok(Crl(entries, TruncateToSecond(now), TruncateToSecond(now) + CRL_VALIDITY))
  }

  function KrlSerials(revoked: seq<Revocation>): Result<seq<nat>> {
    if revoked == [] then Ok([])
    else
      match KrlSerials(revoked[..|revoked| - 1])
      case Err(e) => Err(e)
      case Ok(serials) =>
        match ParseUint64(revoked[|revoked| - 1].serial)
        case Err(e) => Err(e)
        case Ok(n) => Ok(serials + [n])
  }

  function KrlOf(revoked: seq<Revocation>, key: Bytes, now: Time): Option<Bytes> {
    match KrlSerials(revoked)
    case Err(_) => None
    case Ok(serials) => if 0 in serials then None else Some(Krl.KrlBytes(serials, key, now))
  }

  // ----- publishing once -----

  /** What a publisher is configured with. */
  datatype Setup = Setup(enabled: bool, vpn: bool, sshKey: Option<Bytes>)

  /** How replacing a file ends: the file as it was; the file replaced and an error
      all the same, because the directory could not be synced; or all done. */
  datatype Outcome = Untouched | Unsynced | Done

  /** A list put in place. */
  datatype Put = CrlPut(crl: Crl) | KrlPut(krl: Bytes)

  /** What publishing asks of the store, what it puts in place, and whether it
      returns without an error. */
  datatype Published = Published(asks: seq<Op>, puts: seq<Put>, ok: bool)

  function PublishCrl(st: State, now: Time, outcome: Outcome): Published {
    var asks := [ReadRevocations(Vpn, now)];
    match CrlOf(Listed(st, Vpn, now), now)
    case Err(_) => Published(asks, [], false)
    case Ok(crl) => Published(asks, if outcome.Untouched? then [] else [CrlPut(crl)], outcome.Done?)
  }

  function PublishKrl(st: State, key: Bytes, now: Time, outcome: Outcome): Published {
    var asks := [ReadRevocations(Ssh, now)];
    match KrlOf(Listed(st, Ssh, now), key, now)
    case None => Published(asks, [], false)
    case Some(krl) => Published(asks, if outcome.Untouched? then [] else [KrlPut(krl)], outcome.Done?)
  }

  /** publishRevocations: the CRL, and then, if that went well, the KRL. */
  function PublishOnce(setup: Setup, st: State, now: Time, crlOutcome: Outcome, krlOutcome: Outcome): Published {
    if !setup.enabled then Published([], [], true)
    else
      var crl := if setup.vpn then PublishCrl(st, now, crlOutcome) else Published([], [], true);
      if !crl.ok || setup.sshKey.None? then crl
      else
        var krl := PublishKrl(st, setup.sshKey.value, now, krlOutcome);
        Published(crl.asks + krl.asks, crl.puts + krl.puts, krl.ok)
  }

  /** Publishing asks only for revocations, and of the moment. */
  lemma PublishAsks(setup: Setup, st: State, now: Time, crlOutcome: Outcome, krlOutcome: Outcome)
    ensures var asks := PublishOnce(setup, st, now, crlOutcome, krlOutcome).asks;
            |asks| <= 2 && forall i: nat | i < |asks| :: asks[i].ReadRevocations? && asks[i].now == now
  {
    hide CrlOf, KrlOf, Listed;
  }

  /** What is put in place is what the store's answers at that moment make. */
  lemma PublishPuts(setup: Setup, st: State, now: Time, crlOutcome: Outcome, krlOutcome: Outcome)
    ensures var puts := PublishOnce(setup, st, now, crlOutcome, krlOutcome).puts;
            forall put | put in puts :: match put
              case CrlPut(crl) => CrlOf(Listed(st, Vpn, now), now) == Ok(crl)
              case KrlPut(krl) =>
                setup.sshKey.Some? && KrlOf(Listed(st, Ssh, now), setup.sshKey.value, now) == Some(krl)
  {
    hide CrlOf, KrlOf, Listed;
  }

  /** The CRL in place after these puts: the last of them. */
  function CrlIn(puts: seq<Put>): Option<Crl> {
    if puts == [] then None
    else if puts[|puts| - 1].CrlPut? then Some(puts[|puts| - 1].crl)
    else CrlIn(puts[..|puts| - 1])
  }

  function KrlIn(puts: seq<Put>): Option<Bytes> {
    if puts == [] then None
    else if puts[|puts| - 1].KrlPut? then Some(puts[|puts| - 1].krl)
    else KrlIn(puts[..|puts| - 1])
  }

  /** currentCRL: the list from whatever the store holds. */
  method CurrentCrl(store: MemoryStore, now: Time) returns (r: Result<Crl>)
    requires store.Valid()
    modifies store`revoked
    ensures store.Valid()
    ensures store.Abstract() == Step(old(store.Abstract()), ReadRevocations(Vpn, now), store.Limit())
    ensures r == CrlOf(Listed(old(store.Abstract()), Vpn, now), now)
  {
    var revoked := store.Revocations(Vpn, now);
    var entries: seq<CrlEntry> := [];
    for i := 0 to |revoked|
      modifies {}
      invariant CrlEntries(revoked[..i]) == Ok(entries)
    {
      assert revoked[..i + 1][..i] == revoked[..i];
      match ParseBigInt(revoked[i].serial) {
        case None =>
          CrlEntriesFail(revoked, i + 1);
          return Err("serial is not a decimal integer");
        case Some(n) =>
          entries := entries + [CrlEntry(n, TruncateToSecond(revoked[i].at))];
      }
    }
    assert revoked[..|revoked|] == revoked;
    r := Ok(Crl(entries, TruncateToSecond(now), TruncateToSecond(now) + CRL_VALIDITY));
  }

  /** currentKRL: parse each serial back and encode the list. */
  method CurrentKrl(store: MemoryStore, key: Bytes, now: Time) returns (r: Result<Bytes>)
    requires store.Valid()
    modifies store`revoked
    ensures store.Valid()
    ensures store.Abstract() == Step(old(store.Abstract()), ReadRevocations(Ssh, now), store.Limit())
    ensures var krl := KrlOf(Listed(old(store.Abstract()), Ssh, now), key, now);
            if r.Ok? then krl == Some(r.value) else krl == None
  {
    var revoked := store.Revocations(Ssh, now);
    var serials: seq<nat> := [];
    for i := 0 to |revoked|
      modifies {}
      invariant KrlSerials(revoked[..i]) == Ok(serials)
    {
      assert revoked[..i + 1][..i] == revoked[..i];
      match ParseUint64(revoked[i].serial) {
        case Err(e) =>
          KrlSerialsFail(revoked, i + 1);
          return Err(e);
        case Ok(n) =>
          serials := serials + [n];
      }
    }
    assert revoked[..|revoked|] == revoked;
    r := Krl.Encode(serials, key, now);
  }

  lemma {:induction false} CrlEntriesFail(revoked: seq<Revocation>, i: nat)
    requires i <= |revoked| && CrlEntries(revoked[..i]).Err?
    ensures CrlEntries(revoked) == CrlEntries(revoked[..i])
  {
    if i < |revoked| {
      var front := revoked[..|revoked| - 1];
      assert front[..i] == revoked[..i];
      CrlEntriesFail(front, i);
    } else {
      assert revoked[..i] == revoked;
    }
  }

  lemma {:induction false} KrlSerialsFail(revoked: seq<Revocation>, i: nat)
    requires i <= |revoked| && KrlSerials(revoked[..i]).Err?
    ensures KrlSerials(revoked).Err?
  {
    if i < |revoked| {
      var front := revoked[..|revoked| - 1];
      assert front[..i] == revoked[..i];
      KrlSerialsFail(front, i);
    } else {
      assert revoked[..i] == revoked;
    }
  }

  // ----- end to end, for SSH -----

  /** An SSH serial as issued: a positive uint64, printed in decimal. */
  ghost predicate IssuedSerial(serial: string) {
    exists n: nat | 0 < n < Krl.WORD * Krl.WORD :: serial == Decimal(n)
  }

  lemma ParseIssued(serial: string)
    requires IssuedSerial(serial)
    ensures ParseUint64(serial).Ok? && serial == Decimal(ParseUint64(serial).value)
    ensures 0 < ParseUint64(serial).value < Krl.WORD * Krl.WORD
  {
    var n: nat :| 0 < n < Krl.WORD * Krl.WORD && serial == Decimal(n);
    ParsePrintedUint64(n);
  }

  lemma {:induction false} KrlSerialsOfIssued(revoked: seq<Revocation>)
    requires forall i: nat | i < |revoked| :: IssuedSerial(revoked[i].serial)
    ensures KrlSerials(revoked).Ok? && Krl.Serials(KrlSerials(revoked).value)
    ensures |KrlSerials(revoked).value| == |revoked|
    ensures forall i: nat | i < |revoked| :: revoked[i].serial == Decimal(KrlSerials(revoked).value[i])
  {
    hide Decimal, ParseUint64, IssuedSerial;
    if revoked != [] {
      var front, last := revoked[..|revoked| - 1], revoked[|revoked| - 1];
      assert forall i: nat | i < |front| :: front[i] == revoked[i];
      KrlSerialsOfIssued(front);
      ParseIssued(last.serial);
    }
  }

  /** A serial is in the decoded list just when an entry of the answer prints it. */
  lemma DecodedSerials(revoked: seq<Revocation>, key: Bytes, now: Time, n: nat)
    requires forall i: nat | i < |revoked| :: IssuedSerial(revoked[i].serial)
    requires |key| + 13 + 8 * |revoked| < Krl.WORD
    ensures KrlOf(revoked, key, now).Some?
    ensures var d := Krl.Decode(KrlOf(revoked, key, now).value);
            && d.Some? && |d.value.sections| == 1 && d.value.sections[0].caKey == key
            && (n in d.value.sections[0].serials <==> HasSerial(revoked, Decimal(n)))
  {
    hide IssuedSerial, Krl.Decode, Krl.KrlBytes, Decimal;
    KrlSerialsOfIssued(revoked);
    var serials := KrlSerials(revoked).value;
    assert 0 !in serials;
    Krl.KrlRoundTrip(serials, key, now);
    if HasSerial(revoked, Decimal(n)) {
      var i: nat :| i < |revoked| && revoked[i].serial == Decimal(n);
      DecimalInjective(n, serials[i]);
    }
    if n in serials {
      var i: nat :| i < |serials| && serials[i] == n;
      assert revoked[i].serial == Decimal(n);
    }
  }

  /** Every SSH revocation in the run is of a serial that was issued. */
  ghost predicate SshSerialsIssued(ops: seq<Op>) {
    forall i: nat | i < |ops| && ops[i].AddRevocation? && ops[i].revocation.kind == Ssh ::
      IssuedSerial(ops[i].revocation.serial)
  }

  lemma ListedMembers(st: State, kind: Kind, now: Time, r: Revocation)
    ensures r in Listed(st, kind, now) <==> r in st.revoked && now <= r.until && r.kind == kind
  {
    FilterMembers(st.revoked, Current(now), r);
    FilterMembers(Filter(st.revoked, Current(now)), OfKind(kind), r);
  }

  lemma ListedIsRevoked(ops: seq<Op>, max: nat, serial: string, kind: Kind, now: Time)
    requires Store.Ordered(ops) && SerialsDistinct(ops)
    requires forall i: nat | i < |ops| :: ops[i].now <= now
    ensures HasSerial(Listed(Run(ops, max), kind, now), serial) <==> RevokedBy(ops, serial, kind, now)
  {
    var st := Run(ops, max);
    var listed := Listed(st, kind, now);
    RunListsIffRevoked(ops, max, serial, kind, now);
    forall r: Revocation ensures r in listed <==> r in st.revoked && now <= r.until && r.kind == kind {
      ListedMembers(st, kind, now, r);
    }
    hide Listed, RevokedBy, Run;
    if HasSerial(listed, serial) {
      var i: nat :| i < |listed| && listed[i].serial == serial;
      assert listed[i] in listed;
    }
    if Lists(st.revoked, serial, kind, now) {
      var r: Revocation :| r in st.revoked && r.serial == serial && r.kind == kind && now <= r.until;
      assert r in listed;
    }
  }

  /** End to end: printed at issue, stored, revoked, parsed back and encoded, a
      serial is in the published list exactly when its credential was revoked
      while valid and has not expired when the list is built. */
  lemma KrlRevokesExactlyTheRevoked(ops: seq<Op>, max: nat, key: Bytes, now: Time, n: nat)
    requires Store.Ordered(ops) && SerialsDistinct(ops) && SshSerialsIssued(ops)
    requires forall i: nat | i < |ops| :: ops[i].now <= now
    requires |key| + 13 + 8 * |Listed(Run(ops, max), Ssh, now)| < Krl.WORD
    ensures var krl := KrlOf(Listed(Run(ops, max), Ssh, now), key, now);
            && krl.Some? && Krl.Decode(krl.value).Some?
            && var sections := Krl.Decode(krl.value).value.sections;
            && |sections| == 1 && sections[0].caKey == key
            && (n in sections[0].serials <==> RevokedBy(ops, Decimal(n), Ssh, now))
  {
    hide Krl.Decode, KrlOf, IssuedSerial, Decimal, RevokedBy, Listed;
    var st := Run(ops, max);
    var listed := Listed(st, Ssh, now);
    forall r | r in listed ensures IssuedSerial(r.serial) {
      ListedMembers(st, Ssh, now, r);
      EntriesWereRevoked(ops, max, r);
    }
    assert forall i: nat | i < |listed| :: listed[i] in listed;
    DecodedSerials(listed, key, now, n);
    ListedIsRevoked(ops, max, Decimal(n), Ssh, now);
  }

  /** The KRL cannot be built exactly when some listed serial does not parse or is
      zero: one such entry withholds the whole list. */
  lemma {:induction false} KrlFailsIff(revoked: seq<Revocation>, key: Bytes, now: Time)
    ensures KrlOf(revoked, key, now).Some? <==>
            forall r | r in revoked :: ParseUint64(r.serial).Ok? && ParseUint64(r.serial).value != 0
  {
    hide ParseUint64, Krl.KrlBytes;
    if revoked != [] {
      var front, last := revoked[..|revoked| - 1], revoked[|revoked| - 1];
      KrlFailsIff(front, key, now);
      assert revoked == front + [last];
    }
  }

  // ----- the VPN list -----

  lemma ParseBigDecimal(n: nat)
    ensures ParseBigInt(Decimal(n)) == Some(n)
  {
    DecimalRoundTrip(n);
    assert IsDigit(Decimal(n)[0]);
  }

  /** A VPN serial as issued: a natural number printed in decimal. */
  ghost predicate PrintedNat(serial: string) {
    exists n: nat :: serial == Decimal(n)
  }

  /** A CRL entry written for a revocation. */
  ghost predicate EntryFor(e: CrlEntry, r: Revocation) {
    e.serial >= 0 && r.serial == Decimal(e.serial) && e.at == TruncateToSecond(r.at)
  }

  lemma EntryOfIssued(r: Revocation)
    requires PrintedNat(r.serial)
    ensures ParseBigInt(r.serial).Some?
    ensures EntryFor(CrlEntry(ParseBigInt(r.serial).value, TruncateToSecond(r.at)), r)
  {
    var n: nat :| r.serial == Decimal(n);
    ParseBigDecimal(n);
  }

  lemma {:induction false} CrlEntriesOfIssued(revoked: seq<Revocation>)
    requires forall i: nat | i < |revoked| :: PrintedNat(revoked[i].serial)
    ensures CrlEntries(revoked).Ok? && |CrlEntries(revoked).value| == |revoked|
    ensures forall i: nat | i < |revoked| :: EntryFor(CrlEntries(revoked).value[i], revoked[i])
  {
    hide EntryFor, PrintedNat, ParseBigInt, TruncateToSecond;
    if revoked != [] {
      var front, last := revoked[..|revoked| - 1], revoked[|revoked| - 1];
      assert forall i: nat | i < |front| :: front[i] == revoked[i];
      CrlEntriesOfIssued(front);
      EntryOfIssued(last);
    }
  }

  ghost predicate VpnSerialsIssued(ops: seq<Op>) {
    forall i: nat | i < |ops| && ops[i].AddRevocation? && ops[i].revocation.kind == Vpn ::
      PrintedNat(ops[i].revocation.serial)
  }

  ghost predicate CrlRevokes(crl: Crl, n: int) {
    exists i: nat | i < |crl.entries| :: crl.entries[i].serial == n
  }

  /** The CRL lists exactly the VPN serials revoked while valid and not expired
      when it is built, and is current for a day from then. */
  lemma CrlRevokesExactlyTheRevoked(ops: seq<Op>, max: nat, now: Time, n: nat)
    requires Store.Ordered(ops) && SerialsDistinct(ops) && VpnSerialsIssued(ops)
    requires forall i: nat | i < |ops| :: ops[i].now <= now
    ensures var crl := CrlOf(Listed(Run(ops, max), Vpn, now), now);
            && crl.Ok?
            && (CrlRevokes(crl.value, n) <==> RevokedBy(ops, Decimal(n), Vpn, now))
            && crl.value.thisUpdate <= now < crl.value.nextUpdate
  {
    hide Decimal, RevokedBy, Listed, PrintedNat;
    var st := Run(ops, max);
    var listed := Listed(st, Vpn, now);
    forall r | r in listed ensures PrintedNat(r.serial) {
      ListedMembers(st, Vpn, now, r);
      EntriesWereRevoked(ops, max, r);
    }
    assert forall i: nat | i < |listed| :: listed[i] in listed;
    CrlEntriesOfIssued(listed);
    ListedIsRevoked(ops, max, Decimal(n), Vpn, now);
    var entries := CrlEntries(listed).value;
    if HasSerial(listed, Decimal(n)) {
      var i: nat :| i < |listed| && listed[i].serial == Decimal(n);
      assert EntryFor(entries[i], listed[i]);
      DecimalInjective(n, entries[i].serial);
    }
    if i: nat :| i < |entries| && entries[i].serial == n {
      assert EntryFor(entries[i], listed[i]);
    }
  }
}
