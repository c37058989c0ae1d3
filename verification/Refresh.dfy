/** Publishing over time: which list is in place at each moment, and when the CRL
    in place is sure to be current. */
module Refresh {
  import opened Common
  import opened Sessions
  import opened Store
  import Krl
  import opened Publish
  import AtomicFile

  const REFRESH_INTERVAL: Time := HOUR

  // ----- publishing once -----

  /** One call of atomicfile.Write: the suffix of its temporary name, the first fault
      it meets, and whether its deferred Remove takes effect. */
  datatype Try = Try(suffix: string, fault: AtomicFile.Fault, removed: bool)

  function OutcomeOf(s: AtomicFile.System, t: Try): Outcome {
    match AtomicFile.Met(s, t.suffix, t.fault)
    case NoFault => Done
    case AtSyncDir => Unsynced
    case _ => Untouched
  }

  /** Pruning earlier does not change what is current later. */
  lemma PrunedTwice(revoked: seq<Revocation>, t: Time, now: Time)
    requires t <= now
    ensures Filter(Filter(revoked, Current(t)), Current(now)) == Filter(revoked, Current(now))
  {
    FilterTwice(revoked, Current(t), Current(now));
  }

  /** Reading the revocations changes no later answer. */
  lemma ListedAfterRead(st: State, read: Kind, kind: Kind, t: Time, now: Time, max: nat)
    requires t <= now
    ensures Listed(Step(st, ReadRevocations(read, t), max), kind, now) == Listed(st, kind, now)
  {
    PrunedTwice(st.revoked, t, now);
  }

  /** The operations of publishing, as steps of the store. */
  lemma OneRead(st: State, op: Op, max: nat)
    ensures Steps(st, [op], max) == Steps(st, [] + [op], max) == Step(st, op, max) && Steps(st, [], max) == st
  {
    assert [op][..0] == [] && [] + [op] == [op];
  }

  lemma TwoReads(st: State, a: Op, b: Op, max: nat)
    ensures Steps(st, [a] + [b], max) == Step(Step(st, a, max), b, max)
  {
    OneRead(st, a, max);
    assert ([a] + [b])[..1] == [a];
  }

  lemma PutLast(puts: seq<Put>, put: Put)
    ensures CrlIn(puts + [put]) == (if put.CrlPut? then Some(put.crl) else CrlIn(puts))
    ensures KrlIn(puts + [put]) == (if put.KrlPut? then Some(put.krl) else KrlIn(puts))
  {
    assert (puts + [put])[..|puts|] == puts;
  }

  /** The publisher over the two files it replaces. pem is the encoding of a CRL; puts
      are the lists it has put in place, the last of each kind being what readers of
      its file find. */
  class Publisher {
    const setup: Setup
    const store: MemoryStore
    const crlFile: AtomicFile.Host
    const krlFile: AtomicFile.Host
    const pem: Crl -> Bytes
    ghost const crlBefore: Option<Bytes>
    ghost const krlBefore: Option<Bytes>
    ghost var puts: seq<Put>

    ghost predicate Valid()
      reads this, store, crlFile, krlFile
    {
      store.Valid() && Files()
    }

    /** Each file holds the last list put there, or what it held before any was. */
    ghost predicate Files()
      reads this, crlFile, krlFile
    {
      && crlFile != krlFile && crlFile.Valid() && krlFile.Valid()
      && AtomicFile.Read(crlFile.sys) == (match CrlIn(puts) case None => crlBefore case Some(crl) => Some(pem(crl)))
      && AtomicFile.Read(krlFile.sys) == (match KrlIn(puts) case None => krlBefore case Some(krl) => Some(krl))
    }

    constructor (setup: Setup, store: MemoryStore, crlFile: AtomicFile.Host, krlFile: AtomicFile.Host,
                 pem: Crl -> Bytes)
      requires store.Valid() && crlFile != krlFile && crlFile.Valid() && krlFile.Valid()
      ensures Valid() && puts == []
      ensures this.setup == setup && this.store == store && this.crlFile == crlFile && this.krlFile == krlFile
      ensures this.pem == pem
      ensures crlBefore == AtomicFile.Read(crlFile.sys) && krlBefore == AtomicFile.Read(krlFile.sys)
    {
      this.setup, this.store, this.crlFile, this.krlFile, this.pem := setup, store, crlFile, krlFile, pem;
      crlBefore, krlBefore := AtomicFile.Read(crlFile.sys), AtomicFile.Read(krlFile.sys);
      puts := [];
    }

    /** publishRevocations, with one reading of the clock. */
    method PublishRevocations(now: Time, crlTry: Try, krlTry: Try) returns (ok: bool)
      requires Valid()
      modifies this`puts, crlFile, krlFile, store`revoked
      ensures Valid()
      ensures var st := old(store.Abstract());
              var p := PublishOnce(setup, st, now,
                                   OutcomeOf(old(crlFile.sys), crlTry), OutcomeOf(old(krlFile.sys), krlTry));
              && ok == p.ok && puts == old(puts) + p.puts
              && store.Abstract() == Steps(st, p.asks, store.Limit())
    {
      hide Steps, Step, Listed, CrlOf, KrlOf, CrlIn, KrlIn, OutcomeOf;
      hide AtomicFile.Read, AtomicFile.Inv, AtomicFile.Idle;
      ghost var st := store.Abstract();
      OneRead(st, ReadRevocations(Vpn, now), store.Limit());
      OneRead(st, ReadRevocations(Ssh, now), store.Limit());
      TwoReads(st, ReadRevocations(Vpn, now), ReadRevocations(Ssh, now), store.Limit());
      ListedAfterRead(st, Vpn, Ssh, now, now, store.Limit());
      if !setup.enabled {
        return true;
      }
      if setup.vpn {
        ok := PublishCrlFile(now, crlTry);
        if !ok {
          return false;
        }
      }
      if setup.sshKey.Some? {
        ok := PublishKrlFile(setup.sshKey.value, now, krlTry);
        return ok;
      }
      return true;
    }

    /** writeList for crl.pem. */
    method PublishCrlFile(now: Time, try: Try) returns (ok: bool)
      requires Valid()
      modifies this`puts, crlFile, store`revoked
      ensures Valid()
      ensures var p := PublishCrl(old(store.Abstract()), now, OutcomeOf(old(crlFile.sys), try));
              && ok == p.ok && puts == old(puts) + p.puts
              && store.Abstract() == Step(old(store.Abstract()), ReadRevocations(Vpn, now), store.Limit())
    {
      hide CrlOf, Listed, Step, CrlIn, KrlIn, Filter, AtomicFile.At, AtomicFile.TempName, AtomicFile.Joined;
      hide AtomicFile.Read, AtomicFile.Inv, AtomicFile.Idle, AtomicFile.Exec, AtomicFile.ValidRun;
      var list := CurrentCrl(store, now);
      if list.Err? {
        return false;
      }
      ghost var before := crlFile.sys;
      ghost var steps;
      OneChunk(pem(list.value));
      ok, steps := crlFile.Write(try.suffix, [pem(list.value)], try.fault, try.removed);
      if OutcomeOf(before, try) != Untouched {
        PutLast(puts, CrlPut(list.value));
        puts := puts + [CrlPut(list.value)];
      }
    }

    /** writeList for krl. */
    method PublishKrlFile(key: Bytes, now: Time, try: Try) returns (ok: bool)
      requires Valid()
      modifies this`puts, krlFile, store`revoked
      ensures Valid()
      ensures var p := PublishKrl(old(store.Abstract()), key, now, OutcomeOf(old(krlFile.sys), try));
              && ok == p.ok && puts == old(puts) + p.puts
              && store.Abstract() == Step(old(store.Abstract()), ReadRevocations(Ssh, now), store.Limit())
    {
      hide KrlOf, Listed, Step, CrlIn, KrlIn, Filter, AtomicFile.At, AtomicFile.TempName, AtomicFile.Joined;
      hide AtomicFile.Read, AtomicFile.Inv, AtomicFile.Idle, AtomicFile.Exec, AtomicFile.ValidRun;
      var list := CurrentKrl(store, key, now);
      if list.Err? {
        return false;
      }
      ghost var before := krlFile.sys;
      ghost var steps;
      OneChunk(list.value);
      ok, steps := krlFile.Write(try.suffix, [list.value], try.fault, try.removed);
      if OutcomeOf(before, try) != Untouched {
        PutLast(puts, KrlPut(list.value));
        puts := puts + [KrlPut(list.value)];
      }
    }
  }

  lemma OneChunk(body: Bytes)
    ensures AtomicFile.Joined([body]) == body
  {
    assert [body][..0] == [];
    assert [] + body == body;
  }

  // ----- publishing over time -----

  /** One attempt to publish the CRL: when it read the clock, when it was over, and
      whether the file was replaced. */
  datatype Attempt = Attempt(clock: Time, over: Time, ok: bool)

  /** The nextUpdate of the CRL in place at t, from the attempts over by then. */
  function NextUpdateAt(attempts: seq<Attempt>, t: Time): Option<Time> {
    if attempts == [] then None
    else
      var last := attempts[|attempts| - 1];
      if last.ok && last.over <= t then Some(TruncateToSecond(last.clock) + CRL_VALIDITY)
      else NextUpdateAt(attempts[..|attempts| - 1], t)
  }

  /** Attempts follow one another, startup, ticks and revocations alike. */
  ghost predicate Sequential(attempts: seq<Attempt>) {
    && (forall i: nat | i < |attempts| :: attempts[i].clock <= attempts[i].over)
    && (forall i: nat, j: nat | i < j < |attempts| :: attempts[i].over <= attempts[j].clock)
  }

  /** When the ticker, started at start, fires for the m-th time, counting from 0. */
  function TickTime(start: Time, m: nat): Time {
    start + (m + 1) * REFRESH_INTERVAL
  }

  /** ticks[m] is the attempt made for tick m: it reads the clock at or after the
      tick and is over with some slack before the next. */
  ghost predicate Ticked(attempts: seq<Attempt>, ticks: seq<Attempt>, start: Time, slack: Time) {
    forall m: nat | m < |ticks| ::
      && ticks[m] in attempts
      && TickTime(start, m) <= ticks[m].clock
      && ticks[m].over <= TickTime(start, m + 1) - slack
  }

  /** Every tick whose hour is up by t has been attempted. */
  ghost predicate TickedUntil(ticks: seq<Attempt>, start: Time, slack: Time, t: Time) {
    forall m: nat | TickTime(start, m) + REFRESH_INTERVAL - slack <= t :: m < |ticks|
  }

  /** One of the 23 ticks from m on succeeds. */
  ghost predicate SomeOk(ticks: seq<Attempt>, m: nat)
    requires m + 23 <= |ticks|
  {
    exists i: nat | m <= i < m + 23 :: ticks[i].ok
  }

  /** Fewer than 23 ticks in a row fail. */
  ghost predicate NoLongOutage(ticks: seq<Attempt>) {
    forall m: nat | m + 23 <= |ticks| :: SomeOk(ticks, m)
  }

  /** The attempt whose list is in place at t. */
  lemma {:induction false} InPlace(attempts: seq<Attempt>, t: Time) returns (i: nat)
    requires exists j: nat | j < |attempts| :: attempts[j].ok && attempts[j].over <= t
    ensures i < |attempts| && attempts[i].ok && attempts[i].over <= t
    ensures forall j: nat | i < j < |attempts| :: !(attempts[j].ok && attempts[j].over <= t)
    ensures NextUpdateAt(attempts, t) == Some(TruncateToSecond(attempts[i].clock) + CRL_VALIDITY)
  {
    var n := |attempts| - 1;
    if attempts[n].ok && attempts[n].over <= t {
      i := n;
    } else {
      var j: nat :| j < |attempts| && attempts[j].ok && attempts[j].over <= t;
      assert attempts[..n][j] == attempts[j];
      i := InPlace(attempts[..n], t);
      assert forall k: nat | k < n :: attempts[..n][k] == attempts[k];
    }
  }

  lemma FirstTickAfter(start: Time, slack: Time, clock: Time) returns (m: nat)
    requires slack >= SECOND && clock >= start - (slack - SECOND)
    ensures clock < TickTime(start, m) <= clock + HOUR + (slack - SECOND)
  {
    m := if clock < start then 0 else (clock - start) / HOUR;
  }

  lemma TicksLater(start: Time, m: nat, i: nat)
    requires m <= i
    ensures TickTime(start, i) == TickTime(start, m) + (i - m) * HOUR
    ensures TickTime(start, m) <= TickTime(start, i)
  {
    assert (i + 1) * HOUR == (m + 1) * HOUR + (i - m) * HOUR;
  }

  /** From a published list on, some tick succeeds and is over before the list
      can lapse. */
  lemma TickReplaces(attempts: seq<Attempt>, ticks: seq<Attempt>, start: Time, slack: Time, clock: Time, t: Time)
    returns (a: Attempt)
    requires slack >= SECOND && clock >= start - (slack - SECOND)
    requires Ticked(attempts, ticks, start, slack) && TickedUntil(ticks, start, slack, t)
    requires NoLongOutage(ticks)
    requires clock + CRL_VALIDITY - SECOND <= t
    ensures a in attempts && a.ok && a.clock > clock && a.over <= t
  {
    var m := FirstTickAfter(start, slack, clock);
    TicksLater(start, m, m + 22);
    TicksLater(start, m, m + 23);
    hide TickTime;
    assert SomeOk(ticks, m);
    var i: nat :| m <= i < m + 23 && ticks[i].ok;
    a := ticks[i];
    TicksLater(start, m, i);
    TicksLater(start, i + 1, m + 23);
    assert a.clock >= TickTime(start, i) && a.over <= TickTime(start, i + 1) - slack;
  }

  /** The published CRL is always current. With a successful publish at startup, a
      tick every hour whose publish is over with slack to spare, and fewer than
      23 ticks failing in a row, every later moment lies before the nextUpdate of
      the file in place. Publishes made on revocation in between do no harm. */
  lemma CrlIsAlwaysCurrent(attempts: seq<Attempt>, ticks: seq<Attempt>, start: Time, slack: Time, t: Time)
    requires Sequential(attempts) && attempts != [] && attempts[0].ok && attempts[0].over <= t
    requires slack >= SECOND && attempts[0].clock >= start - (slack - SECOND)
    requires Ticked(attempts, ticks, start, slack) && TickedUntil(ticks, start, slack, t)
    requires NoLongOutage(ticks)
    ensures NextUpdateAt(attempts, t).Some? && t < NextUpdateAt(attempts, t).value
  {
    var i := InPlace(attempts, t);
    var clock := attempts[i].clock;
    assert i == 0 || attempts[0].over <= clock;
    if TruncateToSecond(clock) + CRL_VALIDITY <= t {
      var a := TickReplaces(attempts, ticks, start, slack, clock, t);
      var j: nat :| j < |attempts| && attempts[j] == a;
    }
  }

  /** The CRL in place is current exactly when some publish already over read its
      clock, in whole seconds, less than a day ago. */
  lemma CurrentIff(attempts: seq<Attempt>, t: Time)
    requires Sequential(attempts)
    ensures NextUpdateAt(attempts, t).Some? && t < NextUpdateAt(attempts, t).value
       <==> exists i: nat | i < |attempts| ::
              attempts[i].ok && attempts[i].over <= t && t < TruncateToSecond(attempts[i].clock) + CRL_VALIDITY
  {
    if exists i: nat :: i < |attempts| && attempts[i].ok && attempts[i].over <= t {
      var last := InPlace(attempts, t);
      forall i: nat | i < |attempts| && attempts[i].ok && attempts[i].over <= t
        ensures attempts[i].clock <= attempts[last].clock
      {
        assert i == last || attempts[i].over <= attempts[last].clock;
      }
    } else {
      NoneInPlace(attempts, t);
    }
  }

  lemma {:induction false} NoneInPlace(attempts: seq<Attempt>, t: Time)
    requires forall i: nat | i < |attempts| :: !(attempts[i].ok && attempts[i].over <= t)
    ensures NextUpdateAt(attempts, t) == None
  {
    if attempts != [] {
      NoneInPlace(attempts[..|attempts| - 1], t);
    }
  }

  /** Attempt i of a run in which only the first succeeds, one every hour. */
  function HourlyAttempt(i: nat): Attempt {
    Attempt(i * HOUR, i * HOUR, i == 0)
  }

  /** A success at startup and then a day of ticks that all fail. */
  function Outage(): (attempts: seq<Attempt>)
    ensures |attempts| == 24 && forall i: nat | i < 24 :: attempts[i] == HourlyAttempt(i)
  {
    seq(24, (i: nat) => HourlyAttempt(i))
  }

  lemma HoursLater(i: int, j: int)
    requires i < j
    ensures i * HOUR + HOUR <= j * HOUR
  {
    assert (j - i - 1) * HOUR >= 0;
  }

  lemma OutageIsSequential()
    ensures Sequential(Outage())
  {
    hide Outage;
    var attempts := Outage();
    forall i: nat, j: nat | i < j < |attempts| ensures attempts[i].over <= attempts[j].clock {
      HoursLater(i, j);
      hide HOUR;
    }
  }

  lemma OutageIsTicked()
    ensures Ticked(Outage(), Outage()[1..], 0, SECOND) && TickedUntil(Outage()[1..], 0, SECOND, DAY)
  {
    hide Outage;
    var attempts := Outage();
    forall m: nat | m < |attempts[1..]|
      ensures var a := attempts[1..][m];
              a in attempts && TickTime(0, m) <= a.clock && a.over <= TickTime(0, m + 1) - SECOND
    {
      assert attempts[1..][m] == attempts[m + 1] == HourlyAttempt(m + 1);
      HoursLater(m + 1, m + 2);
    }
    forall m: nat | TickTime(0, m) + REFRESH_INTERVAL - SECOND <= DAY ensures m < 23 {
      if m >= 23 {
        HoursLater(22, m);
      }
    }
  }

  /** Fewer than 23 cannot be relaxed: here 23 ticks fail in a row, every other
      condition holds, and the list has lapsed before the next tick is over. */
  lemma LongerOutageLapses()
    ensures var attempts, ticks := Outage(), Outage()[1..];
            && Sequential(attempts) && attempts[0].ok
            && Ticked(attempts, ticks, 0, SECOND) && TickedUntil(ticks, 0, SECOND, DAY)
            && NextUpdateAt(attempts, DAY) == Some(DAY)
  {
    OutageIsSequential();
    OutageIsTicked();
    hide Sequential, Ticked, TickedUntil, Outage, NextUpdateAt;
    OnlyFirst(Outage(), DAY);
  }

  lemma {:induction false} OnlyFirst(attempts: seq<Attempt>, t: Time)
    requires attempts != [] && attempts[0].ok && attempts[0].over <= t
    requires forall i: nat | 0 < i < |attempts| :: !attempts[i].ok
    ensures NextUpdateAt(attempts, t) == Some(TruncateToSecond(attempts[0].clock) + CRL_VALIDITY)
  {
    if |attempts| > 1 {
      OnlyFirst(attempts[..|attempts| - 1], t);
    }
  }
}
