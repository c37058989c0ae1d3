/** The bounded store of issued credentials and revocations: its steps as pure
    functions, what whole runs of them guarantee, and the class that takes them
    in place. */
module Store {
  import opened Common
  import opened Sessions

  const DEFAULT_MAX_SESSIONS: nat := 1000

  datatype Revocation = Revocation(serial: string, kind: Kind, user: string, at: Time, until: Time)
  {
    predicate Lapsed(now: Time) { now > until }
  }

  function Current(now: Time): Revocation -> bool {
    (r: Revocation) => !r.Lapsed(now)
  }

  function OfKind(kind: Kind): Revocation -> bool {
    (r: Revocation) => r.kind == kind
  }

  predicate HasSerial(revoked: seq<Revocation>, serial: string) {
    exists i: nat | i < |revoked| :: revoked[i].serial == serial
  }

  // ----- the store's steps -----

  datatype State = State(sessions: seq<Session>, revoked: seq<Revocation>)

  datatype Op =
    | AddSession(session: Session, now: Time)
    | ReadFor(user: string, now: Time)
    | ReadAll(now: Time)
    | CountTracked(now: Time)
    | AddRevocation(revocation: Revocation, now: Time)
    | ReadRevocations(kind: Kind, now: Time)
  {
    /** The operations that prune the session list. */
    predicate Prunes() { !AddRevocation? && !ReadRevocations? }
  }

  function Pruned(sessions: seq<Session>, now: Time, max: nat): seq<Session> {
    Best(Live(sessions, now), max)
  }

  function WithRevocation(revoked: seq<Revocation>, r: Revocation): seq<Revocation> {
    if HasSerial(revoked, r.serial) then revoked else revoked + [r]
  }

  function Step(st: State, op: Op, max: nat): State {
    match op
    case AddSession(s, now) => st.(sessions := Pruned([s] + st.sessions, now, max))
    case AddRevocation(r, now) => st.(revoked := Filter(WithRevocation(st.revoked, r), Current(now)))
    case ReadRevocations(_, now) => st.(revoked := Filter(st.revoked, Current(now)))
    case _ => st.(sessions := Pruned(st.sessions, op.now, max))
  }

  /** The answer to a Revocations query. */
  function Listed(st: State, kind: Kind, now: Time): seq<Revocation> {
    Filter(Filter(st.revoked, Current(now)), OfKind(kind))
  }

  function Run(ops: seq<Op>, max: nat): State {
    if ops == [] then State([], [])
    else Step(Run(ops[..|ops| - 1], max), ops[|ops| - 1], max)
  }

  /** The operations taken one after another from a state. */
  function Steps(st: State, ops: seq<Op>, max: nat): State {
    if ops == [] then st
    else Step(Steps(st, ops[..|ops| - 1], max), ops[|ops| - 1], max)
  }

  lemma {:induction false} RunConcat(a: seq<Op>, b: seq<Op>, max: nat)
    ensures Run(a + b, max) == Steps(Run(a, max), b, max)
    decreases |b|
  {
    if b == [] {
      assert a + b == a;
    } else {
      assert (a + b)[..|a + b| - 1] == a + b[..|b| - 1];
      RunConcat(a, b[..|b| - 1], max);
    }
  }

  ghost predicate Ordered(ops: seq<Op>) {
    forall i: nat, j: nat | i < j < |ops| :: ops[i].now <= ops[j].now
  }

  /** Every session ever added, newest first. */
  function Added(ops: seq<Op>): seq<Session> {
    if ops == [] then []
    else
      var last := ops[|ops| - 1];
      (if last.AddSession? then [last.session] else []) + Added(ops[..|ops| - 1])
  }

  /** When the session list was last pruned; of no account before any operation. */
  function LastPrune(ops: seq<Op>): Time {
    if ops == [] then 0
    else if ops[|ops| - 1].Prunes() then ops[|ops| - 1].now
    else LastPrune(ops[..|ops| - 1])
  }

  // ----- streaming equals batch -----

  /** One pruning step on a list that is already the batch answer at an earlier
      time yields the batch answer now. */
  lemma PruneStep(news: seq<Session>, history: seq<Session>, t: Time, now: Time, max: nat)
    requires |news| <= 1
    requires t <= now || history == []
    ensures Pruned(news + Pruned(history, t, max), now, max) == Pruned(news + history, now, max)
  {
    var kept := Pruned(history, t, max);
    BestOfLive(Live(history, t), now, max);
    if history != [] {
      LiveLater(history, t, now);
    }
    assert Best(Live(kept, now), max) == Best(Live(history, now), max);
    LiveConcat(news, kept, now);
    LiveConcat(news, history, now);
    if Live(news, now) == [] {
      assert [] + Live(kept, now) == Live(kept, now) && [] + Live(history, now) == Live(history, now);
    } else {
      assert Live(news, now) == [news[0]];
      BestOfPrepend(news[0], Live(kept, now), max);
      BestOfPrepend(news[0], Live(history, now), max);
    }
  }

  lemma {:induction false} LastPruneBound(ops: seq<Op>, now: Time)
    requires forall i: nat | i < |ops| :: ops[i].now <= now
    ensures LastPrune(ops) <= now || (Added(ops) == [] && forall i: nat | i < |ops| :: !ops[i].Prunes())
  {
    if ops != [] {
      LastPruneBound(ops[..|ops| - 1], now);
    }
  }

  lemma StreamStep(ops: seq<Op>, max: nat)
    requires ops != [] && Ordered(ops)
    requires var front := ops[..|ops| - 1];
             Run(front, max).sessions == Pruned(Added(front), LastPrune(front), max)
    ensures Run(ops, max).sessions == Pruned(Added(ops), LastPrune(ops), max)
  {
    var front, last := ops[..|ops| - 1], ops[|ops| - 1];
    LastPruneBound(front, last.now);
    hide Pruned;
    var news := if last.AddSession? then [last.session] else [];
    if last.Prunes() {
      PruneStep(news, Added(front), LastPrune(front), last.now, max);
      assert last.AddSession? || news + Run(front, max).sessions == Run(front, max).sessions;
    } else {
      assert [] + Added(front) == Added(front);
    }
  }

  /** However the store was used, its list is the best max, by expiry and then
      recency, of everything ever added and unexpired at the last prune. */
  lemma {:induction false} StreamingEqualsBatch(ops: seq<Op>, max: nat)
    requires Ordered(ops)
    ensures Run(ops, max).sessions == Best(Live(Added(ops), LastPrune(ops)), max)
  {
    if ops != [] {
      hide Run, Added, LastPrune;
      var front := ops[..|ops| - 1];
      assert forall i: nat, j: nat | i < j < |front| :: front[i] == ops[i] && front[j] == ops[j];
      StreamingEqualsBatch(front, max);
      StreamStep(ops, max);
    }
  }

  // ----- revocations -----

  /** Revocations of one serial agree, because the serial names one credential. */
  ghost predicate SerialsDistinct(ops: seq<Op>) {
    forall i: nat, j: nat | i < |ops| && j < |ops| && ops[i].AddRevocation? && ops[j].AddRevocation?
      && ops[i].revocation.serial == ops[j].revocation.serial ::
      ops[i].revocation.kind == ops[j].revocation.kind && ops[i].revocation.until == ops[j].revocation.until
  }

  ghost predicate Lists(revoked: seq<Revocation>, serial: string, kind: Kind, now: Time) {
    exists r: Revocation | r in revoked :: r.serial == serial && r.kind == kind && now <= r.until
  }

  /** Some operation revoked the credential before it expired at or after now. */
  ghost predicate RevokedBy(ops: seq<Op>, serial: string, kind: Kind, now: Time) {
    exists k: nat | k < |ops| && ops[k].AddRevocation? ::
      var r := ops[k].revocation;
      r.serial == serial && r.kind == kind && ops[k].now <= r.until && now <= r.until
  }

  ghost predicate UniqueSerials(revoked: seq<Revocation>) {
    forall i: nat, j: nat | i < j < |revoked| :: revoked[i].serial != revoked[j].serial
  }

  lemma {:induction false} EntriesWereRevoked(ops: seq<Op>, max: nat, r: Revocation)
    requires r in Run(ops, max).revoked
    ensures exists k: nat | k < |ops| && ops[k].AddRevocation? :: ops[k].revocation == r
  {
    var front, last := ops[..|ops| - 1], ops[|ops| - 1];
    var before := Run(front, max).revoked;
    match last {
      case AddRevocation(x, now) =>
        FilterMembers(WithRevocation(before, x), Current(now), r);
        if r in before {
          EntriesWereRevoked(front, max, r);
        }
      case ReadRevocations(_, now) =>
        FilterMembers(before, Current(now), r);
        EntriesWereRevoked(front, max, r);
      case _ =>
        EntriesWereRevoked(front, max, r);
    }
  }

  lemma {:induction false} FilterKeepsUnique(s: seq<Revocation>, p: Revocation -> bool)
    requires UniqueSerials(s)
    ensures UniqueSerials(Filter(s, p))
  {
    if s != [] {
      var rest := Filter(s[1..], p);
      FilterKeepsUnique(s[1..], p);
      forall i: nat | i < |rest| ensures rest[i].serial != s[0].serial {
        FilterMembers(s[1..], p, rest[i]);
        var j: nat :| j < |s[1..]| && s[1..][j] == rest[i];
        assert s[j + 1] == rest[i];
      }
    }
  }

  lemma {:induction false} RunKeepsUnique(ops: seq<Op>, max: nat)
    ensures UniqueSerials(Run(ops, max).revoked)
  {
    if ops != [] {
      var front, last := ops[..|ops| - 1], ops[|ops| - 1];
      var before := Run(front, max).revoked;
      RunKeepsUnique(front, max);
      match last {
        case AddRevocation(r, now) => FilterKeepsUnique(WithRevocation(before, r), Current(now));
        case ReadRevocations(_, now) => FilterKeepsUnique(before, Current(now));
        case _ =>
      }
    }
  }

  lemma ListsFiltered(revoked: seq<Revocation>, t: Time, serial: string, kind: Kind, now: Time)
    requires t <= now
    ensures Lists(Filter(revoked, Current(t)), serial, kind, now) <==> Lists(revoked, serial, kind, now)
  {
    forall r: Revocation ensures r in Filter(revoked, Current(t)) <==> r in revoked && !r.Lapsed(t) {
      FilterMembers(revoked, Current(t), r);
    }
  }

  lemma RevokedByLast(ops: seq<Op>, serial: string, kind: Kind, now: Time)
    requires ops != []
    ensures var last := ops[|ops| - 1];
            RevokedBy(ops, serial, kind, now) <==>
            (RevokedBy(ops[..|ops| - 1], serial, kind, now)
            || (last.AddRevocation? && last.revocation.serial == serial && last.revocation.kind == kind
                && last.now <= last.revocation.until && now <= last.revocation.until))
  {
    var front := ops[..|ops| - 1];
    assert forall i: nat | i < |front| :: front[i] == ops[i];
  }

  /** A serial already present names the same credential, so skipping the new
      entry loses nothing. */
  lemma PresentAgrees(ops: seq<Op>, max: nat)
    requires ops != [] && ops[|ops| - 1].AddRevocation? && SerialsDistinct(ops)
    ensures var r := ops[|ops| - 1].revocation;
            forall e | e in Run(ops[..|ops| - 1], max).revoked && e.serial == r.serial ::
              e.kind == r.kind && e.until == r.until
  {
    var n := |ops| - 1;
    var front := ops[..n];
    forall e | e in Run(front, max).revoked && e.serial == ops[n].revocation.serial
      ensures e.kind == ops[n].revocation.kind && e.until == ops[n].revocation.until
    {
      EntriesWereRevoked(front, max, e);
      var k: nat :| k < n && front[k].AddRevocation? && front[k].revocation == e;
      assert ops[k] == front[k];
    }
  }

  lemma ListsWithRevocation(before: seq<Revocation>, r: Revocation, serial: string, kind: Kind, now: Time)
    requires forall e | e in before && e.serial == r.serial :: e.kind == r.kind && e.until == r.until
    ensures Lists(WithRevocation(before, r), serial, kind, now)
       <==> Lists(before, serial, kind, now) || (r.serial == serial && r.kind == kind && now <= r.until)
  {
    var after := WithRevocation(before, r);
    if HasSerial(before, r.serial) {
      var i: nat :| i < |before| && before[i].serial == r.serial;
      assert before[i] in before;
    } else {
      assert r in after;
    }
  }

  lemma {:induction false} RunListsIffRevoked(ops: seq<Op>, max: nat, serial: string, kind: Kind, now: Time)
    requires Ordered(ops) && SerialsDistinct(ops)
    requires forall i: nat | i < |ops| :: ops[i].now <= now
    ensures Lists(Run(ops, max).revoked, serial, kind, now) <==> RevokedBy(ops, serial, kind, now)
  {
    if ops != [] {
      var n := |ops| - 1;
      var front, last := ops[..n], ops[n];
      var before := Run(front, max).revoked;
      assert forall i: nat | i < n :: front[i] == ops[i];
      RunListsIffRevoked(front, max, serial, kind, now);
      RevokedByLast(ops, serial, kind, now);
      match last {
        case AddRevocation(r, t) =>
          ListsFiltered(WithRevocation(before, r), t, serial, kind, now);
          PresentAgrees(ops, max);
          ListsWithRevocation(before, r, serial, kind, now);
        case ReadRevocations(_, t) =>
          ListsFiltered(before, t, serial, kind, now);
        case _ =>
      }
    }
  }

  /** How many entries of an answer carry a serial. */
  function CountSerial(revoked: seq<Revocation>, serial: string): nat {
    if revoked == [] then 0
    else (if revoked[0].serial == serial then 1 else 0) + CountSerial(revoked[1..], serial)
  }

  lemma {:induction false} CountSerialUnique(revoked: seq<Revocation>, serial: string)
    requires UniqueSerials(revoked)
    ensures CountSerial(revoked, serial) == if HasSerial(revoked, serial) then 1 else 0
  {
    if revoked != [] {
      var rest := revoked[1..];
      assert forall i: nat | i < |rest| :: rest[i] == revoked[i + 1];
      CountSerialUnique(rest, serial);
      if HasSerial(revoked, serial) && revoked[0].serial != serial {
        var i: nat :| i < |revoked| && revoked[i].serial == serial;
        assert rest[i - 1].serial == serial;
      }
    }
  }

  /** A revocation lasts exactly as long as the credential. In every ordered run
      a query at now or later lists the serial once, under its own kind, if it
      was revoked while valid and has not expired, and not at all otherwise. */
  lemma RevocationLastsAsLongAsCredential(ops: seq<Op>, max: nat, serial: string, kind: Kind, now: Time)
    requires Ordered(ops) && SerialsDistinct(ops)
    requires forall i: nat | i < |ops| :: ops[i].now <= now
    ensures CountSerial(Listed(Run(ops, max), kind, now), serial)
         == if RevokedBy(ops, serial, kind, now) then 1 else 0
  {
    var revoked := Run(ops, max).revoked;
    var current := Filter(revoked, Current(now));
    var listed := Filter(current, OfKind(kind));
    RunListsIffRevoked(ops, max, serial, kind, now);
    RunKeepsUnique(ops, max);
    FilterKeepsUnique(revoked, Current(now));
    FilterKeepsUnique(current, OfKind(kind));
    CountSerialUnique(listed, serial);
    forall r: Revocation ensures r in listed <==> r in revoked && now <= r.until && r.kind == kind {
      FilterMembers(revoked, Current(now), r);
      FilterMembers(current, OfKind(kind), r);
    }
    if HasSerial(listed, serial) {
      var i: nat :| i < |listed| && listed[i].serial == serial;
      assert listed[i] in listed;
    }
  }

  /** Revoke compares serials alone. Without the assumption that serials are
      distinct a revocation of a live credential takes effect exactly when no
      entry carries its serial, or one of its own kind is listed already. */
  lemma RevokeTakesEffectIff(st: State, r: Revocation, now: Time, max: nat)
    requires now <= r.until
    ensures Lists(Step(st, AddRevocation(r, now), max).revoked, r.serial, r.kind, now)
       <==> !HasSerial(st.revoked, r.serial) || Lists(st.revoked, r.serial, r.kind, now)
  {
    ListsFiltered(WithRevocation(st.revoked, r), now, r.serial, r.kind, now);
    if !HasSerial(st.revoked, r.serial) {
      assert r in WithRevocation(st.revoked, r);
    }
  }

  /** The failing family has members: two kinds sharing a serial. */
  lemma SharedSerialIsNotRevoked()
    ensures var v, s := Revocation("7", Vpn, "alice", 0, HOUR), Revocation("7", Ssh, "alice", 0, HOUR);
            !Lists(Run([AddRevocation(v, 0), AddRevocation(s, 0)], 1).revoked, "7", Ssh, 0)
  {
    var v, s := Revocation("7", Vpn, "alice", 0, HOUR), Revocation("7", Ssh, "alice", 0, HOUR);
    var ops := [AddRevocation(v, 0), AddRevocation(s, 0)];
    var first := [AddRevocation(v, 0)];
    assert ops[..1] == first && first[..0] == [];
    assert WithRevocation([], v) == [v];
    assert Run(first, 1) == Step(Run([], 1), first[0], 1);
    FilterAll([v], Current(0));
    assert Run(first, 1).revoked == [v];
    RevokeTakesEffectIff(Run(first, 1), s, 0, 1);
    assert [v][0].serial == "7";
  }

  // ----- the class -----

  /** What clear leaves behind. */
  const ZERO_SESSION := Session("", "", Vpn, "", "", 0, 0)

  lemma {:induction false} CountTrueOutside(n: nat, doomed: set<nat>, keep: seq<bool>)
    requires |keep| == n && forall i: nat | i < n :: keep[i] <==> i !in doomed
    requires forall i | i in doomed :: i < n
    ensures CountTrue(keep) == n - |doomed|
  {
    if n == 0 {
      assert doomed == {};
    } else {
      var last := n - 1;
      CountTrueOutside(last, doomed - {last}, keep[..last]);
      assert keep == keep[..last] + [keep[last]];
      CountTrueConcat(keep[..last], [keep[last]]);
    }
  }

  lemma {:induction false} SelectSnoc(s: seq<Session>, keep: seq<bool>, i: nat)
    requires |s| == |keep| && i < |s|
    ensures Select(s[..i + 1], keep[..i + 1]) == Select(s[..i], keep[..i]) + if keep[i] then [s[i]] else []
  {
    assert s[..i + 1] == s[..i] + [s[i]] && keep[..i + 1] == keep[..i] + [keep[i]];
    SelectConcat(s[..i], [s[i]], keep[..i], [keep[i]]);
  }

  /** The indices of a list, the first to evict first. */
  ghost predicate EvictionOrder(s: seq<Session>, order: seq<nat>, n: nat) {
    && n <= |s|
    && |order| == n
    && (forall a: nat | a < n :: order[a] < n)
    && (forall i: nat | i < n :: i in order)
    && (forall a: nat, b: nat | a < b < n :: order[a] < |s| && order[b] < |s| && Outranks(s, order[b], order[a]))
  }

  lemma NextDoomed(s: seq<Session>, order: seq<nat>, k: nat)
    requires EvictionOrder(s, order, |s|) && k < |s|
    ensures order[k] !in order[..k] && order[..k + 1] == order[..k] + [order[k]]
  {
    forall a: nat | a < k ensures order[a] != order[k] {
      assert Outranks(s, order[k], order[a]);
    }
  }

  /** The default store. buf[..len] is the session list, newest first. */
  class MemoryStore {
    const Max: int
    var buf: array<Session>
    var len: nat
    var revoked: seq<Revocation>

    ghost predicate Valid()
      reads this
    {
      len <= buf.Length
    }

    ghost function Sessions(): seq<Session>
      reads this, buf
      requires Valid()
    {
      buf[..len]
    }

    ghost function Abstract(): State
      reads this, buf
      requires Valid()
    {
      State(Sessions(), revoked)
    }

    function Limit(): (n: nat)
      ensures n > 0
    {
      if Max <= 0 then DEFAULT_MAX_SESSIONS else Max
    }

    constructor (max: int)
      ensures Valid() && fresh(buf) && Max == max
      ensures Abstract() == State([], [])
    {
      Max := max;
      buf := new Session[0];
      len := 0;
      revoked := [];
    }

    method Add(session: Session, now: Time)
      requires Valid()
      modifies this, buf
      ensures Valid() && fresh(buf)
      ensures Abstract() == Step(old(Abstract()), AddSession(session, now), Limit())
    {
      var grown := new Session[len + 1];
      grown[0] := session;
      forall i | 0 <= i < len {
        grown[i + 1] := buf[i];
      }
      assert grown[..len + 1] == [session] + buf[..len];
      buf, len := grown, len + 1;
      assert Sessions() == [session] + old(Sessions());
      Prune(now);
    }

    method For(user: string, now: Time) returns (out: seq<Session>)
      requires Valid()
      modifies this`len, buf
      ensures Valid()
      ensures Abstract() == Step(old(Abstract()), ReadFor(user, now), Limit())
      ensures out == Filter(Sessions(), OwnedBy(user))
    {
      Prune(now);
      out := [];
      for i := 0 to len
        modifies {}
        invariant out == Filter(buf[..i], OwnedBy(user))
      {
        assert buf[..len][..i] == buf[..i] && buf[..len][..i + 1] == buf[..i + 1];
        FilterSnoc(buf[..len], OwnedBy(user), i);
        if buf[i].user == user {
          out := out + [buf[i]];
        }
      }
    }

    method All(now: Time) returns (out: seq<Session>)
      requires Valid()
      modifies this`len, buf
      ensures Valid()
      ensures Abstract() == Step(old(Abstract()), ReadAll(now), Limit())
      ensures out == Sessions()
    {
      Prune(now);
      out := buf[..len];
    }

    method Tracked(now: Time) returns (held: nat, limit: nat)
      requires Valid()
      modifies this`len, buf
      ensures Valid()
      ensures Abstract() == Step(old(Abstract()), CountTracked(now), Limit())
      ensures held == |Sessions()| && limit == Limit()
    {
      Prune(now);
      held, limit := len, Limit();
    }

    /** slices.DeleteFunc over the expired entries. */
    method DeleteExpired(now: Time)
      requires Valid()
      modifies this`len, buf
      ensures Valid() && len <= old(len)
      ensures Sessions() == Live(old(Sessions()), now)
      ensures forall i | len <= i < old(len) :: buf[i] == ZERO_SESSION
    {
      ghost var was := buf[..len];
      var kept := 0;
      for i := 0 to len
        modifies buf
        invariant kept <= i
        invariant buf[..kept] == Live(was[..i], now)
        invariant forall j | i <= j < len :: buf[j] == was[j]
      {
        FilterSnoc(was, Unexpired(now), i);
        if !buf[i].Expired(now) {
          ghost var front := buf[..kept];
          buf[kept] := buf[i];
          kept := kept + 1;
          assert buf[..kept] == front + [was[i]];
        }
      }
      assert was[..len] == was;
      Clear(kept);
      len := kept;
    }

    /** clear(s.sessions[from:]). */
    method Clear(from: nat)
      requires Valid() && from <= len
      modifies buf
      ensures buf[..from] == old(buf[..from])
      ensures forall j | from <= j < len :: buf[j] == ZERO_SESSION
      ensures forall j | len <= j < buf.Length :: buf[j] == old(buf[j])
    {
      for i := from to len
        modifies buf
        invariant buf[..from] == old(buf[..from])
        invariant forall j | from <= j < i :: buf[j] == ZERO_SESSION
        invariant forall j | len <= j < buf.Length :: buf[j] == old(buf[j])
      {
        buf[i] := ZERO_SESSION;
      }
    }

    /** The indices sorted soonest expiry first, older first at the same expiry. */
    method SortIndices() returns (order: seq<nat>)
      requires Valid()
      ensures EvictionOrder(Sessions(), order, len)
    {
      order := [];
      for i := 0 to len
        invariant EvictionOrder(Sessions(), order, i)
      {
        var at := 0;
        while at < i && buf[order[at]].expiresAt < buf[i].expiresAt
          invariant at <= i
          invariant forall a: nat | a < at :: Outranks(Sessions(), i, order[a])
        {
          at := at + 1;
        }
        InsertIndex(Sessions(), order, i, at);
        order := order[..at] + [i] + order[at..];
      }
    }

    /** Drop expired entries, then give up whatever expires soonest until the
        list fits. */
    method Prune(now: Time)
      requires Valid()
      modifies this`len, buf
      ensures Valid() && len <= old(len)
      ensures Sessions() == Pruned(old(Sessions()), now, Limit())
      ensures forall i | len <= i < old(len) :: buf[i] == ZERO_SESSION
    {
      DeleteExpired(now);
      var surplus := len - Limit();
      if surplus <= 0 {
        return;
      }
      var order := SortIndices();
      var doomed := Doom(order, surplus);
      hide Outranks, EvictionOrder, Best, Select, KeepsGreatest;
      ghost var was := buf[..len];
      ghost var keep := seq(|was|, i => i !in doomed);
      DoomedAreWorst(was, order, surplus, doomed, keep, Limit());
      BestIsGreatest(was, keep, Limit());
      Rebuild(doomed, keep);
    }

    /** The first so many of the indices. */
    method Doom(order: seq<nat>, surplus: nat) returns (doomed: set<nat>)
      requires Valid() && EvictionOrder(Sessions(), order, len) && surplus <= len
      ensures |doomed| == surplus && forall i :: i in doomed <==> i in order[..surplus]
    {
      doomed := {};
      for k := 0 to surplus
        invariant |doomed| == k
        invariant forall i :: i in doomed <==> i in order[..k]
      {
        NextDoomed(Sessions(), order, k);
        hide EvictionOrder, Outranks;
        doomed := doomed + {order[k]};
      }
    }

    /** Compact the list in place, leaving out the doomed indices. A slot is read
        before it can be overwritten, and what falls off the end is cleared. */
    method Rebuild(doomed: set<nat>, ghost keep: seq<bool>)
      requires Valid() && |keep| == len
      requires forall i: nat | i < len :: keep[i] <==> i !in doomed
      modifies this`len, buf
      ensures Valid() && len <= old(len)
      ensures Sessions() == Select(old(Sessions()), keep)
      ensures forall j | len <= j < old(len) :: buf[j] == ZERO_SESSION
      ensures forall j | old(len) <= j < buf.Length :: buf[j] == old(buf[j])
    {
      ghost var was := buf[..len];
      var kept := 0;
      for i := 0 to len
        modifies buf
        invariant kept <= i
        invariant buf[..kept] == Select(was[..i], keep[..i])
        invariant forall j | i <= j < len :: buf[j] == was[j]
        invariant forall j | len <= j < buf.Length :: buf[j] == old(buf[j])
      {
        SelectSnoc(was, keep, i);
        if i !in doomed {
          ghost var front := buf[..kept];
          buf[kept] := buf[i];
          kept := kept + 1;
          assert buf[..kept] == front + [was[i]];
        }
      }
      assert was[..len] == was && keep[..len] == keep;
      Clear(kept);
      len := kept;
    }

    method Revoke(r: Revocation, now: Time)
      requires Valid()
      modifies this`revoked
      ensures Abstract() == Step(old(Abstract()), AddRevocation(r, now), Limit())
    {
      var present := false;
      for i := 0 to |revoked|
        modifies {}
        invariant present <==> exists j: nat | j < i :: revoked[j].serial == r.serial
      {
        if revoked[i].serial == r.serial {
          present := true;
        }
      }
      if !present {
        revoked := revoked + [r];
      }
      PruneRevoked(now);
    }

    method Revocations(kind: Kind, now: Time) returns (out: seq<Revocation>)
      requires Valid()
      modifies this`revoked
      ensures Abstract() == Step(old(Abstract()), ReadRevocations(kind, now), Limit())
      ensures out == Listed(old(Abstract()), kind, now)
    {
      PruneRevoked(now);
      out := [];
      for i := 0 to |revoked|
        modifies {}
        invariant out == Filter(revoked[..i], OfKind(kind))
      {
        FilterSnoc(revoked, OfKind(kind), i);
        if revoked[i].kind == kind {
          out := out + [revoked[i]];
        }
      }
      assert revoked[..|revoked|] == revoked;
    }

    method PruneRevoked(now: Time)
      modifies this`revoked
      ensures revoked == Filter(old(revoked), Current(now))
    {
      var was := revoked;
      revoked := [];
      for i := 0 to |was|
        invariant revoked == Filter(was[..i], Current(now))
      {
        FilterSnoc(was, Current(now), i);
        if !was[i].Lapsed(now) {
          revoked := revoked + [was[i]];
        }
      }
      assert was[..|was|] == was;
    }
  }

  function Inserted(order: seq<nat>, i: nat, at: nat): seq<nat>
    requires at <= |order|
  {
    order[..at] + [i] + order[at..]
  }

  lemma InsertedHolds(order: seq<nat>, i: nat, at: nat, k: nat)
    requires at <= |order| && (k in order || k == i)
    ensures k in Inserted(order, i, at)
  {
    if k == i {
      assert Inserted(order, i, at)[at] == k;
    } else {
      var a: nat :| a < |order| && order[a] == k;
      assert Inserted(order, i, at)[if a < at then a else a + 1] == k;
    }
  }

  /** Where an entry of the longer list came from. */
  lemma InsertedAt(order: seq<nat>, i: nat, at: nat, k: nat)
    requires at <= |order| && k <= |order|
    ensures |Inserted(order, i, at)| == |order| + 1
    ensures Inserted(order, i, at)[k] == if k < at then order[k] else if k == at then i else order[k - 1]
  {
  }

  lemma InsertIndex(s: seq<Session>, order: seq<nat>, i: nat, at: nat)
    requires i < |s| && EvictionOrder(s, order, i) && at <= i
    requires forall a: nat | a < at :: Outranks(s, i, order[a])
    requires at < i ==> s[order[at]].expiresAt >= s[i].expiresAt
    ensures EvictionOrder(s, Inserted(order, i, at), i + 1)
  {
    var grown := Inserted(order, i, at);
    forall a: nat | at <= a < i ensures Outranks(s, order[a], i) {
      assert a == at || Outranks(s, order[a], order[at]);
    }
    hide Outranks, Inserted;
    InsertedAt(order, i, at, 0);
    forall k: nat | k < i + 1 ensures k in grown {
      InsertedHolds(order, i, at, k);
    }
    forall k: nat | k < i + 1 ensures grown[k] < i + 1 {
      InsertedAt(order, i, at, k);
    }
    forall a: nat, b: nat | a < b < i + 1 ensures Outranks(s, grown[b], grown[a]) {
      InsertedAt(order, i, at, a);
      InsertedAt(order, i, at, b);
    }
  }

  /** The mask that spares everything but the first surplus indices keeps the
      greatest. */
  lemma DoomedAreWorst(s: seq<Session>, order: seq<nat>, surplus: nat, doomed: set<nat>, keep: seq<bool>, max: nat)
    requires EvictionOrder(s, order, |s|) && surplus <= |s| && max == |s| - surplus
    requires |doomed| == surplus && forall i :: i in doomed <==> i in order[..surplus]
    requires |keep| == |s| && forall i: nat | i < |s| :: keep[i] <==> i !in doomed
    ensures KeepsGreatest(s, keep, max)
  {
    forall i | i in doomed ensures i < |s| {
      var a: nat :| a < surplus && order[a] == i;
    }
    CountTrueOutside(|s|, doomed, keep);
    forall a: nat | a < surplus ensures order[a] in doomed {
      assert order[a] == order[..surplus][a];
    }
    forall i: nat, j: nat | i < |s| && j < |s| && !keep[i] && keep[j]
      ensures Outranks(s, j, i)
    {
      var a: nat :| a < surplus && order[a] == i;
      assert j in order;
      var b: nat :| b < |order| && order[b] == j;
    }
  }
}
