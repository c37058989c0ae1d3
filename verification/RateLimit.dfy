/** The per-user token-bucket limiter: its steps as pure functions, what a run
    of calls allows, and the class that takes the steps in place. */
module RateLimit {
  import opened Common

  datatype Bucket = Bucket(tokens: real, last: Time)

  type Buckets = map<string, Bucket>

  datatype Reply = Reply(ok: bool, wait: Time)

  datatype Call = Call(key: string, at: Time)

  // ----- the steps -----

  function Seconds(d: Time): real {
    d as real / 1000000000.0
  }

  function PerSecond(perHour: real): real {
    perHour / 3600.0
  }

  /** Tokens accrued over a span of time. */
  function Refill(perHour: real, d: Time): real {
    Seconds(d) * PerSecond(perHour)
  }

  function MinReal(a: real, b: real): real {
    if a <= b then a else b
  }

  /** The key's bucket, or the full one it would be given. */
  function BucketOf(m: Buckets, perHour: real, key: string, now: Time): Bucket {
    if key in m then m[key] else Bucket(perHour, now)
  }

  /** What the key's bucket holds when a call arrives. */
  function Available(m: Buckets, perHour: real, key: string, now: Time): real {
    var b := BucketOf(m, perHour, key, now);
    MinReal(perHour, b.tokens + Refill(perHour, now - b.last))
  }

  /** time.Duration.Round(time.Second) for a span that is not negative. */
  function RoundToSecond(d: Time): Time {
    if d % SECOND < SECOND - d % SECOND then d - d % SECOND else d + SECOND - d % SECOND
  }

  /** The wait before rounding, in seconds. */
  function ExactWait(perHour: real, tokens: real): real
    requires perHour > 0.0
  {
    (1.0 - tokens) / PerSecond(perHour)
  }

  function Wait(perHour: real, tokens: real): Time
    requires perHour > 0.0
  {
    RoundToSecond((ExactWait(perHour, tokens) * 1000000000.0).Floor)
  }

  function ReplyTo(m: Buckets, perHour: real, key: string, now: Time): Reply
    requires perHour > 0.0
  {
    var tokens := Available(m, perHour, key, now);
    if tokens < 1.0 then Reply(false, Wait(perHour, tokens)) else Reply(true, 0)
  }

  /** The buckets after a call, before any sweep. */
  function Served(m: Buckets, perHour: real, key: string, now: Time): Buckets {
    var tokens := Available(m, perHour, key, now);
    m[key := Bucket(if tokens < 1.0 then tokens else tokens - 1.0, now)]
  }

  const SWEEP_AT: nat := 1024

  function Swept(m: Buckets, now: Time): Buckets {
    if |m| < SWEEP_AT then m
    else map key | key in m && now - m[key].last <= HOUR :: m[key]
  }

  // ----- runs -----

  ghost predicate Ordered(calls: seq<Call>) {
    forall i: nat, j: nat | i < j < |calls| :: calls[i].at <= calls[j].at
  }

  /** The limiter as it is, sweeping after every call. */
  function Sweeping(calls: seq<Call>, perHour: real): Buckets {
    if calls == [] then map[]
    else
      var c := calls[|calls| - 1];
      Swept(Served(Sweeping(calls[..|calls| - 1], perHour), perHour, c.key, c.at), c.at)
  }

  /** A limiter that never forgets anyone. */
  function Keeping(calls: seq<Call>, perHour: real): Buckets {
    if calls == [] then map[]
    else
      var c := calls[|calls| - 1];
      Served(Keeping(calls[..|calls| - 1], perHour), perHour, c.key, c.at)
  }

  // ----- arithmetic, stated once so that no later proof multiplies -----

  lemma RefillFacts(perHour: real, a: Time, b: Time)
    requires perHour > 0.0
    ensures Refill(perHour, 0) == 0.0
    ensures Refill(perHour, a) + Refill(perHour, b) == Refill(perHour, a + b)
    ensures a <= b ==> Refill(perHour, a) <= Refill(perHour, b)
    ensures Refill(perHour, HOUR) == perHour
  {
    var r := PerSecond(perHour);
    assert Seconds(HOUR) == 3600.0;
    assert Seconds(a + b) == Seconds(a) + Seconds(b);
    assert (Seconds(a) + Seconds(b)) * r == Seconds(a) * r + Seconds(b) * r;
    if a <= b {
      assert Seconds(a) <= Seconds(b);
      MultiplyMonotone(Seconds(a), Seconds(b), r);
    }
  }

  lemma MultiplyMonotone(a: real, b: real, r: real)
    requires a <= b && r > 0.0
    ensures a * r <= b * r
  {
    assert (b - a) * r >= 0.0;
  }

  // ----- the sweep is invisible -----

  /** What a swept limiter and one that never forgets have in common: a key is
      in step, or it was forgotten after an hour in which it refilled. */
  ghost predicate Coupled(swept: Buckets, kept: Buckets, perHour: real, now: Time) {
    && (forall key | key in swept :: key in kept && swept[key] == kept[key])
    && (forall key | key in kept :: 0.0 <= kept[key].tokens <= perHour && kept[key].last <= now)
    && (forall key | key in kept && key !in swept :: now - kept[key].last > HOUR)
  }

  lemma CoupledAgree(swept: Buckets, kept: Buckets, perHour: real, earlier: Time, key: string, now: Time)
    requires perHour >= 1.0 && Coupled(swept, kept, perHour, earlier) && earlier <= now
    ensures Available(swept, perHour, key, now) == Available(kept, perHour, key, now)
    ensures 0.0 <= Available(kept, perHour, key, now) <= perHour
  {
    hide Refill;
    var b := BucketOf(kept, perHour, key, now);
    RefillFacts(perHour, 0, now - b.last);
    RefillFacts(perHour, HOUR, now - b.last);
  }

  lemma CoupledServed(swept: Buckets, kept: Buckets, perHour: real, key: string, now: Time)
    requires perHour >= 1.0 && Coupled(swept, kept, perHour, now)
    ensures Coupled(Served(swept, perHour, key, now), Served(kept, perHour, key, now), perHour, now)
  {
    CoupledAgree(swept, kept, perHour, now, key, now);
    hide Available;
  }

  lemma CoupledSwept(swept: Buckets, kept: Buckets, perHour: real, now: Time)
    requires Coupled(swept, kept, perHour, now)
    ensures Coupled(Swept(swept, now), kept, perHour, now)
  {
    assert forall k | k in swept && k !in Swept(swept, now) :: now - swept[k].last > HOUR;
  }

  lemma CoupledStep(swept: Buckets, kept: Buckets, perHour: real, key: string, now: Time)
    requires perHour >= 1.0 && Coupled(swept, kept, perHour, now)
    ensures Coupled(Swept(Served(swept, perHour, key, now), now), Served(kept, perHour, key, now), perHour, now)
  {
    hide Coupled, Served, Swept;
    CoupledServed(swept, kept, perHour, key, now);
    CoupledSwept(Served(swept, perHour, key, now), Served(kept, perHour, key, now), perHour, now);
  }

  lemma {:induction false} SweepingCoupled(calls: seq<Call>, perHour: real, now: Time)
    requires perHour >= 1.0 && Ordered(calls)
    requires forall i: nat | i < |calls| :: calls[i].at <= now
    ensures Coupled(Sweeping(calls, perHour), Keeping(calls, perHour), perHour, now)
  {
    hide Served, Swept;
    if calls != [] {
      var front, c := calls[..|calls| - 1], calls[|calls| - 1];
      assert forall i: nat | i < |front| :: front[i] == calls[i];
      SweepingCoupled(front, perHour, c.at);
      CoupledStep(Sweeping(front, perHour), Keeping(front, perHour), perHour, c.key, c.at);
    }
  }

  /** Forgetting idle users changes no reply, in any interleaving of users. */
  lemma SweepIsInvisible(calls: seq<Call>, perHour: real, key: string, now: Time)
    requires perHour >= 1.0 && Ordered(calls)
    requires forall i: nat | i < |calls| :: calls[i].at <= now
    ensures ReplyTo(Sweeping(calls, perHour), perHour, key, now)
         == ReplyTo(Keeping(calls, perHour), perHour, key, now)
  {
    SweepingCoupled(calls, perHour, now);
    CoupledAgree(Sweeping(calls, perHour), Keeping(calls, perHour), perHour, now, key, now);
  }

  /** Nor are idle users kept: after any call fewer than 1024 users are tracked, or
      every tracked user has called within the hour. */
  lemma {:induction false} TrackedAreRecent(calls: seq<Call>, perHour: real)
    requires calls != []
    ensures var m, now := Sweeping(calls, perHour), calls[|calls| - 1].at;
            || |m| < 1024
            || forall key | key in m ::
                 exists i: nat | i < |calls| :: calls[i].key == key && now - calls[i].at <= HOUR
  {
    var front, c := calls[..|calls| - 1], calls[|calls| - 1];
    var served := Served(Sweeping(front, perHour), perHour, c.key, c.at);
    forall key | key in served
      ensures exists i: nat | i < |calls| :: calls[i].key == key && calls[i].at == served[key].last
    {
      if key == c.key {
        assert calls[|calls| - 1].key == key;
      } else {
        LastIsACall(front, perHour, key);
        var i: nat :| i < |front| && front[i].key == key && front[i].at == served[key].last;
        assert calls[i] == front[i];
      }
    }
  }

  lemma {:induction false} LastIsACall(calls: seq<Call>, perHour: real, key: string)
    requires key in Sweeping(calls, perHour)
    ensures exists i: nat | i < |calls| :: calls[i].key == key && calls[i].at == Sweeping(calls, perHour)[key].last
  {
    hide Available;
    var front, c := calls[..|calls| - 1], calls[|calls| - 1];
    if key == c.key {
      assert calls[|calls| - 1].key == key;
    } else {
      LastIsACall(front, perHour, key);
      var i: nat :| i < |front| && front[i].key == key && front[i].at == Sweeping(front, perHour)[key].last;
      assert calls[i] == front[i];
    }
  }

  // ----- the bucket refines its history -----

  /** What call n finds in its user's bucket. */
  function TokensAt(calls: seq<Call>, perHour: real, n: nat): real
    requires n < |calls|
  {
    Available(Sweeping(calls[..n], perHour), perHour, calls[n].key, calls[n].at)
  }

  /** Whether call n of a run is allowed by the limiter as it is. */
  predicate AllowedAt(calls: seq<Call>, perHour: real, n: nat)
    requires n < |calls|
  {
    TokensAt(calls, perHour, n) >= 1.0
  }

  lemma AllowedIsReplied(calls: seq<Call>, perHour: real, n: nat)
    requires perHour > 0.0 && n < |calls|
    ensures AllowedAt(calls, perHour, n)
       <==> ReplyTo(Sweeping(calls[..n], perHour), perHour, calls[n].key, calls[n].at).ok
  {
  }

  /** How many of the key's calls numbered i up to n were allowed. */
  function Allowed(calls: seq<Call>, perHour: real, key: string, i: nat, n: nat): nat
    requires perHour > 0.0 && n <= |calls|
    decreases n
  {
    if n <= i then 0
    else
      Allowed(calls, perHour, key, i, n - 1)
      + if calls[n - 1].key == key && AllowedAt(calls, perHour, n - 1) then 1 else 0
  }

  /** The room a call of the key at now has, counting from its call i. */
  function Room(calls: seq<Call>, perHour: real, key: string, i: nat, n: nat, now: Time): real
    requires perHour > 0.0 && i <= n <= |calls| && i < |calls|
  {
    perHour + Refill(perHour, now - calls[i].at) - Allowed(calls, perHour, key, i, n) as real
  }

  /** The key's bucket after n calls is the least room left by any of its calls. */
  ghost predicate Explains(calls: seq<Call>, perHour: real, key: string, n: nat, b: Bucket)
    requires perHour > 0.0 && n <= |calls|
  {
    && (forall i: nat | i < n && calls[i].key == key :: b.tokens <= Room(calls, perHour, key, i, n, b.last))
    && (exists i: nat | i < n && calls[i].key == key :: b.tokens == Room(calls, perHour, key, i, n, b.last))
    && (forall i: nat | i < n && calls[i].key == key :: calls[i].at <= b.last)
  }

  ghost predicate AllExplained(calls: seq<Call>, perHour: real, n: nat, m: Buckets)
    requires perHour > 0.0 && n <= |calls|
  {
    && (forall i: nat | i < n :: calls[i].key in m)
    && (forall key | key in m :: Explains(calls, perHour, key, n, m[key]))
  }

  /** Room grows as time passes and shrinks by a call that is allowed. */
  lemma RoomLater(calls: seq<Call>, perHour: real, key: string, i: nat, n: nat, t: Time, now: Time)
    requires perHour > 0.0 && i <= n <= |calls| && i < |calls|
    ensures Room(calls, perHour, key, i, n, now) == Room(calls, perHour, key, i, n, t) + Refill(perHour, now - t)
  {
    RefillFacts(perHour, t - calls[i].at, now - t);
  }

  /** What a call finds available is the least room over the key's calls so far
      and the call itself. */
  lemma AvailableIsLeastRoom(calls: seq<Call>, perHour: real, n: nat, m: Buckets)
    requires perHour >= 1.0 && n < |calls| && Ordered(calls)
    requires AllExplained(calls, perHour, n, m)
    ensures var c := calls[n];
            var tokens := Available(m, perHour, c.key, c.at);
            && (forall i: nat | i <= n && calls[i].key == c.key :: tokens <= Room(calls, perHour, c.key, i, n, c.at))
            && (exists i: nat | i <= n && calls[i].key == c.key :: tokens == Room(calls, perHour, c.key, i, n, c.at))
  {
    hide Refill, Allowed;
    var c := calls[n];
    var b := BucketOf(m, perHour, c.key, c.at);
    var tokens := Available(m, perHour, c.key, c.at);
    RefillFacts(perHour, 0, 0);
    RoomOfSelf(calls, perHour, c.key, n);
    if c.key in m {
      forall i: nat | i <= n && calls[i].key == c.key
        ensures tokens <= Room(calls, perHour, c.key, i, n, c.at)
      {
        RoomLater(calls, perHour, c.key, i, n, b.last, c.at);
      }
      if tokens < perHour {
        var i: nat :| i < n && calls[i].key == c.key && b.tokens == Room(calls, perHour, c.key, i, n, b.last);
        RoomLater(calls, perHour, c.key, i, n, b.last, c.at);
      }
    }
  }

  lemma {:induction false} KeepingExplained(calls: seq<Call>, perHour: real, n: nat)
    requires perHour >= 1.0 && n <= |calls| && Ordered(calls)
    ensures AllExplained(calls, perHour, n, Keeping(calls[..n], perHour))
  {
    hide Refill, Room, Available, Explains;
    if n > 0 {
      KeepingExplained(calls, perHour, n - 1);
      var c := calls[n - 1];
      var before := Keeping(calls[..n - 1], perHour);
      assert calls[..n][..n - 1] == calls[..n - 1];
      ReplyIsKeeping(calls, perHour, n - 1);
      AvailableIsLeastRoom(calls, perHour, n - 1, before);
      var after := Keeping(calls[..n], perHour);
      forall key | key in after ensures Explains(calls, perHour, key, n, after[key]) {
        ExplainStep(calls, perHour, n - 1, before, key);
      }
    }
  }

  lemma ReplyIsKeeping(calls: seq<Call>, perHour: real, n: nat)
    requires perHour >= 1.0 && n < |calls| && Ordered(calls)
    ensures AllowedAt(calls, perHour, n) <==>
            Available(Keeping(calls[..n], perHour), perHour, calls[n].key, calls[n].at) >= 1.0
  {
    var c := calls[n];
    SweepingCoupled(calls[..n], perHour, c.at);
    CoupledAgree(Sweeping(calls[..n], perHour), Keeping(calls[..n], perHour), perHour, c.at, c.key, c.at);
  }

  lemma RoomStep(calls: seq<Call>, perHour: real, key: string, i: nat, n: nat, now: Time)
    requires perHour > 0.0 && i <= n < |calls|
    ensures Room(calls, perHour, key, i, n + 1, now)
         == Room(calls, perHour, key, i, n, now)
            - if calls[n].key == key && AllowedAt(calls, perHour, n) then 1.0 else 0.0
  {
    hide Refill, AllowedAt;
  }

  lemma RoomOfSelf(calls: seq<Call>, perHour: real, key: string, n: nat)
    requires perHour > 0.0 && n < |calls|
    ensures Room(calls, perHour, key, n, n, calls[n].at) == perHour
  {
    RefillFacts(perHour, 0, 0);
  }

  lemma ExplainOther(calls: seq<Call>, perHour: real, key: string, n: nat, b: Bucket)
    requires perHour > 0.0 && n < |calls| && calls[n].key != key
    requires Explains(calls, perHour, key, n, b)
    ensures Explains(calls, perHour, key, n + 1, b)
  {
    hide Refill, AllowedAt, Room;
    forall i: nat | i < n && calls[i].key == key
      ensures Room(calls, perHour, key, i, n + 1, b.last) == Room(calls, perHour, key, i, n, b.last)
    {
      RoomStep(calls, perHour, key, i, n, b.last);
    }
    var i: nat :| i < n && calls[i].key == key && b.tokens == Room(calls, perHour, key, i, n, b.last);
    assert b.tokens == Room(calls, perHour, key, i, n + 1, b.last);
  }

  lemma ExplainOwn(calls: seq<Call>, perHour: real, n: nat, tokens: real, used: real)
    requires perHour > 0.0 && n < |calls| && Ordered(calls)
    requires used == if AllowedAt(calls, perHour, n) then 1.0 else 0.0
    requires forall i: nat | i <= n && calls[i].key == calls[n].key ::
      tokens <= Room(calls, perHour, calls[n].key, i, n, calls[n].at)
    requires exists i: nat | i <= n && calls[i].key == calls[n].key ::
      tokens == Room(calls, perHour, calls[n].key, i, n, calls[n].at)
    ensures Explains(calls, perHour, calls[n].key, n + 1, Bucket(tokens - used, calls[n].at))
  {
    hide Refill, AllowedAt, Room;
    var key, at := calls[n].key, calls[n].at;
    forall i: nat | i <= n && calls[i].key == key
      ensures Room(calls, perHour, key, i, n + 1, at) == Room(calls, perHour, key, i, n, at) - used
    {
      RoomStep(calls, perHour, key, i, n, at);
    }
    var i: nat :| i <= n && calls[i].key == key && tokens == Room(calls, perHour, key, i, n, at);
    assert tokens - used == Room(calls, perHour, key, i, n + 1, at);
  }

  lemma ExplainStep(calls: seq<Call>, perHour: real, n: nat, before: Buckets, key: string)
    requires perHour >= 1.0 && n < |calls| && Ordered(calls)
    requires AllExplained(calls, perHour, n, before)
    requires AllowedAt(calls, perHour, n) <==> Available(before, perHour, calls[n].key, calls[n].at) >= 1.0
    requires key in Served(before, perHour, calls[n].key, calls[n].at)
    ensures Explains(calls, perHour, key, n + 1, Served(before, perHour, calls[n].key, calls[n].at)[key])
  {
    hide Refill, AllowedAt, Room;
    var c := calls[n];
    if key == c.key {
      AvailableIsLeastRoom(calls, perHour, n, before);
      var tokens := Available(before, perHour, c.key, c.at);
      ExplainOwn(calls, perHour, n, tokens, if tokens < 1.0 then 0.0 else 1.0);
    } else {
      ExplainOther(calls, perHour, key, n, before[key]);
    }
  }

  /** Counting from the same user's call i, call n fits in the burst plus what
      has accrued since. */
  predicate HasRoom(calls: seq<Call>, perHour: real, i: nat, n: nat)
    requires perHour > 0.0 && i <= n < |calls|
  {
    Allowed(calls, perHour, calls[n].key, i, n) as real + 1.0
      <= perHour + Refill(perHour, calls[n].at - calls[i].at)
  }

  lemma HasRoomIsRoom(calls: seq<Call>, perHour: real, i: nat, n: nat)
    requires perHour > 0.0 && i <= n < |calls|
    ensures HasRoom(calls, perHour, i, n) <==> Room(calls, perHour, calls[n].key, i, n, calls[n].at) >= 1.0
  {
  }

  /** One number per user stands for the user's whole history: call n is allowed
      exactly when, counting from each of the user's calls up to it, the calls
      allowed since leave room for one more in the burst plus what has accrued. */
  lemma BucketRefinesHistory(calls: seq<Call>, perHour: real, n: nat)
    requires perHour >= 1.0 && n < |calls| && Ordered(calls)
    ensures AllowedAt(calls, perHour, n) <==>
            forall i: nat | i <= n && calls[i].key == calls[n].key :: HasRoom(calls, perHour, i, n)
  {
    hide Refill, Room, HasRoom, AllowedAt;
    var c := calls[n];
    KeepingExplained(calls, perHour, n);
    ReplyIsKeeping(calls, perHour, n);
    AvailableIsLeastRoom(calls, perHour, n, Keeping(calls[..n], perHour));
    var tokens := Available(Keeping(calls[..n], perHour), perHour, c.key, c.at);
    forall i: nat | i <= n && calls[i].key == c.key
      ensures HasRoom(calls, perHour, i, n) <==> Room(calls, perHour, c.key, i, n, c.at) >= 1.0
    {
      HasRoomIsRoom(calls, perHour, i, n);
    }
  }

  // ----- whole-run bounds -----

  /** How many of the first n calls were the key's, allowed, and made in the
      interval from one time to another, ends included. */
  function AllowedBetween(calls: seq<Call>, perHour: real, key: string, from: Time, until: Time, n: nat): nat
    requires perHour > 0.0 && n <= |calls|
    decreases n
  {
    if n == 0 then 0
    else
      AllowedBetween(calls, perHour, key, from, until, n - 1)
      + if calls[n - 1].key == key && from <= calls[n - 1].at <= until && AllowedAt(calls, perHour, n - 1) then 1 else 0
  }

  /** The first of the key's calls at or after a time, if it comes before n. */
  function FirstSince(calls: seq<Call>, key: string, from: Time, n: nat): nat
    requires n <= |calls|
  {
    if n == 0 then 0
    else
      var i := FirstSince(calls, key, from, n - 1);
      if i < n - 1 then i
      else if calls[n - 1].key == key && calls[n - 1].at >= from then n - 1
      else n
  }

  lemma {:induction false} BetweenIsAllowed(calls: seq<Call>, perHour: real, key: string, from: Time, until: Time,
                                            n: nat)
    requires perHour > 0.0 && n <= |calls| && Ordered(calls)
    ensures var i := FirstSince(calls, key, from, n);
            && i <= n
            && (i < n ==> calls[i].key == key && from <= calls[i].at)
            && AllowedBetween(calls, perHour, key, from, until, n) <= Allowed(calls, perHour, key, i, n)
            && (i == n ==> AllowedBetween(calls, perHour, key, from, until, n) == 0)
  {
    hide AllowedAt;
    if n > 0 {
      BetweenIsAllowed(calls, perHour, key, from, until, n - 1);
    }
  }

  /** Over any interval a user is allowed at most the burst plus what accrues in
      it: at most twice the hourly limit in any hour. */
  lemma {:induction false} WindowBound(calls: seq<Call>, perHour: real, key: string, from: Time, until: Time, n: nat)
    requires perHour >= 1.0 && n <= |calls| && Ordered(calls) && from <= until
    ensures AllowedBetween(calls, perHour, key, from, until, n) as real <= perHour + Refill(perHour, until - from)
    decreases n
  {
    hide Refill, AllowedAt;
    RefillFacts(perHour, 0, until - from);
    if n > 0 {
      WindowBound(calls, perHour, key, from, until, n - 1);
      var c := calls[n - 1];
      if c.key == key && from <= c.at <= until && AllowedAt(calls, perHour, n - 1) {
        BetweenIsAllowed(calls, perHour, key, from, until, n - 1);
        var i := FirstSince(calls, key, from, n - 1);
        if i < n - 1 {
          BucketRefinesHistory(calls, perHour, n - 1);
          assert HasRoom(calls, perHour, i, n - 1);
          RefillFacts(perHour, c.at - calls[i].at, until - from);
        }
      }
    }
  }

  /** Calls of the key are at least 3600/perHour seconds apart, up to call n. */
  ghost predicate Spaced(calls: seq<Call>, perHour: real, key: string, n: nat)
    requires n < |calls|
  {
    forall i: nat, j: nat | i < j <= n && calls[i].key == key && calls[j].key == key ::
      (calls[j].at - calls[i].at) as real * perHour >= HOUR as real
  }

  lemma SpacedAccrues(perHour: real, d: Time)
    requires perHour > 0.0
    ensures Refill(perHour, d) == d as real * perHour / HOUR as real
  {
    assert HOUR as real == 3600.0 * 1000000000.0;
  }

  lemma {:induction false} SpacedNeverExceeds(calls: seq<Call>, perHour: real, key: string, i: nat, n: nat, now: Time)
    requires perHour >= 1.0 && i <= n <= |calls| && i < |calls| && calls[i].key == key && calls[i].at <= now
    requires forall j: nat | i <= j < n && calls[j].key == key ::
      calls[i].at <= calls[j].at && Refill(perHour, now - calls[j].at) >= 1.0
    requires forall j: nat, k: nat | i <= j < k < n && calls[j].key == key && calls[k].key == key ::
      Refill(perHour, calls[k].at - calls[j].at) >= 1.0
    ensures Allowed(calls, perHour, key, i, n) as real <= Refill(perHour, now - calls[i].at)
    decreases n
  {
    hide Refill, AllowedAt;
    RefillFacts(perHour, 0, now - calls[i].at);
    if n > i {
      var c := calls[n - 1];
      if c.key == key {
        SpacedNeverExceeds(calls, perHour, key, i, n - 1, c.at);
        RefillFacts(perHour, c.at - calls[i].at, now - c.at);
      } else {
        SpacedNeverExceeds(calls, perHour, key, i, n - 1, now);
      }
    }
  }

  /** A user who spaces calls at least 3600/perHour seconds apart is never
      refused, whatever other users do. */
  lemma SpacedIsNeverRefused(calls: seq<Call>, perHour: real, n: nat)
    requires perHour >= 1.0 && n < |calls| && Ordered(calls)
    requires Spaced(calls, perHour, calls[n].key, n)
    ensures AllowedAt(calls, perHour, n)
  {
    hide Refill, AllowedAt;
    var key := calls[n].key;
    forall i: nat, j: nat | i < j <= n && calls[i].key == key && calls[j].key == key
      ensures Refill(perHour, calls[j].at - calls[i].at) >= 1.0
    {
      SpacedAccrues(perHour, calls[j].at - calls[i].at);
    }
    BucketRefinesHistory(calls, perHour, n);
    forall i: nat | i <= n && calls[i].key == key ensures HasRoom(calls, perHour, i, n) {
      SpacedNeverExceeds(calls, perHour, key, i, n, calls[n].at);
    }
  }

  // ----- Retry-After -----

  lemma DivideBounds(x: real, r: real, y: real)
    requires r > 0.0
    ensures x / r <= y <==> x <= y * r
  {
    assert x == (x / r) * r;
    if x / r <= y {
      MultiplyMonotone(x / r, y, r);
    } else {
      MultiplyStrict(y, x / r, r);
    }
  }

  lemma MultiplyStrict(a: real, b: real, r: real)
    requires a < b && r > 0.0
    ensures a * r < b * r
  {
    assert (b - a) * r > 0.0;
  }

  lemma {:induction false} BucketUntouched(calls: seq<Call>, perHour: real, key: string, n: nat, m: nat)
    requires perHour > 0.0 && n <= m <= |calls| && key in Keeping(calls[..n], perHour)
    requires forall i: nat | n <= i < m :: calls[i].key != key
    ensures key in Keeping(calls[..m], perHour)
    ensures Keeping(calls[..m], perHour)[key] == Keeping(calls[..n], perHour)[key]
    decreases m
  {
    if n < m {
      BucketUntouched(calls, perHour, key, n, m - 1);
      assert calls[..m][..m - 1] == calls[..m - 1];
    }
  }

  lemma ServedBucket(calls: seq<Call>, perHour: real, n: nat)
    requires perHour >= 1.0 && n < |calls| && Ordered(calls)
    ensures var c := calls[n];
            var tokens := Available(Keeping(calls[..n], perHour), perHour, c.key, c.at);
            && 0.0 <= tokens <= perHour
            && c.key in Keeping(calls[..n + 1], perHour)
            && (!AllowedAt(calls, perHour, n) ==>
                tokens < 1.0 && Keeping(calls[..n + 1], perHour)[c.key] == Bucket(tokens, c.at))
  {
    hide Refill;
    var c := calls[n];
    assert calls[..n + 1][..n] == calls[..n];
    ReplyIsKeeping(calls, perHour, n);
    SweepingCoupled(calls[..n], perHour, c.at);
    CoupledAgree(Sweeping(calls[..n], perHour), Keeping(calls[..n], perHour), perHour, c.at, c.key, c.at);
  }

  /** The wait computed on refusal is exact before rounding: whatever other users
      do, the refused user's next call is allowed precisely from that delay on.
      It is positive and at most 3600/perHour seconds. */
  lemma RetryAfterIsExact(calls: seq<Call>, perHour: real, n: nat, m: nat)
    requires perHour >= 1.0 && n < m < |calls| && Ordered(calls)
    requires calls[m].key == calls[n].key && forall i: nat | n < i < m :: calls[i].key != calls[n].key
    requires !AllowedAt(calls, perHour, n)
    ensures var wait := ExactWait(perHour, Available(Keeping(calls[..n], perHour), perHour, calls[n].key, calls[n].at));
            && (AllowedAt(calls, perHour, m) <==> Seconds(calls[m].at - calls[n].at) >= wait)
            && 0.0 < wait <= 3600.0 / perHour
  {
    hide Refill, ExactWait, Available, AllowedAt;
    var c := calls[n];
    var tokens := Available(Keeping(calls[..n], perHour), perHour, c.key, c.at);
    ServedBucket(calls, perHour, n);
    BucketUntouched(calls, perHour, c.key, n + 1, m);
    ReplyIsKeeping(calls, perHour, m);
    AllowedOnceWaited(Keeping(calls[..m], perHour), perHour, c.key, tokens, c.at, calls[m].at);
  }

  lemma AllowedOnceWaited(m: Buckets, perHour: real, key: string, tokens: real, earlier: Time, now: Time)
    requires perHour >= 1.0 && 0.0 <= tokens < 1.0
    requires key in m && m[key] == Bucket(tokens, earlier)
    ensures Available(m, perHour, key, now) >= 1.0 <==> Seconds(now - earlier) >= ExactWait(perHour, tokens)
    ensures 0.0 < ExactWait(perHour, tokens) <= 3600.0 / perHour
  {
    WaitFacts(perHour, tokens, Seconds(now - earlier));
  }

  lemma WaitFacts(perHour: real, tokens: real, y: real)
    requires perHour >= 1.0 && 0.0 <= tokens < 1.0
    ensures ExactWait(perHour, tokens) <= y <==> tokens + y * PerSecond(perHour) >= 1.0
    ensures 0.0 < ExactWait(perHour, tokens) <= 3600.0 / perHour
  {
    var r := PerSecond(perHour);
    DivideBounds(1.0 - tokens, r, y);
    DivideBounds(1.0 - tokens, r, 0.0);
    DivideBounds(1.0 - tokens, r, 3600.0 / perHour);
    assert 3600.0 / perHour * r == 1.0;
  }

  /** Rounding the wait to whole seconds does not bring it below the exact one. */
  predicate RoundsUp(perHour: real, tokens: real)
    requires perHour > 0.0
  {
    var exact := ExactWait(perHour, tokens);
    var nanos := (exact * 1000000000.0).Floor;
    2 * (nanos % SECOND) >= SECOND || exact == Seconds(nanos - nanos % SECOND)
  }

  /** The wait a refused caller is told is whole seconds and within half a second
      of the exact one, and not below it exactly when the rounding was upwards or
      there was nothing to round. */
  lemma RetryAfterRounding(perHour: real, tokens: real)
    requires perHour >= 1.0 && 0.0 <= tokens < 1.0
    ensures var exact := ExactWait(perHour, tokens);
            var told := Seconds(Wait(perHour, tokens));
            && Wait(perHour, tokens) % SECOND == 0
            && -0.5 <= told - exact <= 0.5
            && (told >= exact <==> RoundsUp(perHour, tokens))
  {
    WaitFacts(perHour, tokens, 0.0);
    var exact := ExactWait(perHour, tokens);
    var nanos := (exact * 1000000000.0).Floor;
    assert nanos as real <= exact * 1000000000.0 < nanos as real + 1.0;
    var part := nanos % SECOND;
    if part < SECOND - part {
      assert Wait(perHour, tokens) == nanos - part;
    } else {
      assert Wait(perHour, tokens) == nanos + SECOND - part >= nanos + 1;
    }
  }

  /** What call n is answered. */
  function ReplyAt(calls: seq<Call>, perHour: real, n: nat): Reply
    requires perHour > 0.0 && n < |calls|
  {
    ReplyTo(Sweeping(calls[..n], perHour), perHour, calls[n].key, calls[n].at)
  }

  /** Waiting as told. A refused user whose next call comes after just the wait in
      the refusal is allowed if and only if the wait was not rounded down. */
  lemma RetryAfterSuffices(calls: seq<Call>, perHour: real, n: nat, m: nat)
    requires perHour >= 1.0 && n < m < |calls| && Ordered(calls)
    requires calls[m].key == calls[n].key && forall i: nat | n < i < m :: calls[i].key != calls[n].key
    requires !ReplyAt(calls, perHour, n).ok && calls[m].at - calls[n].at == ReplyAt(calls, perHour, n).wait
    ensures ReplyAt(calls, perHour, m).ok <==> RoundsUp(perHour, TokensAt(calls, perHour, n))
  {
    AllowedIsReplied(calls, perHour, n);
    AllowedIsReplied(calls, perHour, m);
    var c := calls[n];
    SweepingCoupled(calls[..n], perHour, c.at);
    CoupledAgree(Sweeping(calls[..n], perHour), Keeping(calls[..n], perHour), perHour, c.at, c.key, c.at);
    hide Refill, Available, Sweeping, Keeping, Wait, RoundsUp, ExactWait;
    ServedBucket(calls, perHour, n);
    RetryAfterIsExact(calls, perHour, n, m);
    RetryAfterRounding(perHour, TokensAt(calls, perHour, n));
  }

  /** Eight calls at once and a ninth after 514 seconds. */
  const EARLY: seq<Call> := seq(8, _ => Call("alice", 0)) + [Call("alice", 514 * SECOND)]

  lemma {:induction false} BurstSpent(n: nat)
    requires n <= 7
    ensures Available(Keeping(EARLY[..n], 7.0), 7.0, "alice", 0) == 7.0 - n as real
    ensures n > 0 ==> "alice" in Keeping(EARLY[..n], 7.0)
  {
    RefillFacts(7.0, 0, 0);
    hide Refill;
    if n > 0 {
      BurstSpent(n - 1);
      assert EARLY[..n][..n - 1] == EARLY[..n - 1] && EARLY[n - 1] == Call("alice", 0);
    }
  }

  lemma SevenAnHour()
    ensures Wait(7.0, 0.0) == 514 * SECOND && !RoundsUp(7.0, 0.0)
  {
    assert 514.0 < ExactWait(7.0, 0.0) < 514.3;
    var nanos := (ExactWait(7.0, 0.0) * 1000000000.0).Floor;
    assert 514 * SECOND <= nanos < 514 * SECOND + 300_000_000;
    assert nanos % SECOND == nanos - 514 * SECOND;
  }

  /** The rounding can be downwards. At seven an hour the eighth of eight calls at
      once is told to wait 514 seconds; after just that it is refused again. */
  lemma RetryAfterCanBeEarly()
    ensures Ordered(EARLY) && ReplyAt(EARLY, 7.0, 7) == Reply(false, 514 * SECOND)
    ensures EARLY[8].at - EARLY[7].at == 514 * SECOND && !ReplyAt(EARLY, 7.0, 8).ok
  {
    var c := EARLY[7];
    assert Ordered(EARLY) && c == Call("alice", 0);
    BurstSpent(7);
    SweepingCoupled(EARLY[..7], 7.0, 0);
    CoupledAgree(Sweeping(EARLY[..7], 7.0), Keeping(EARLY[..7], 7.0), 7.0, 0, "alice", 0);
    hide Available, Sweeping, Keeping, Wait, RoundsUp;
    SevenAnHour();
    RetryAfterSuffices(EARLY, 7.0, 7, 8);
  }

  // ----- the class -----

  /** A bucket as the limiter holds it: by reference, refilled in place. */
  class Cell {
    var tokens: real
    var last: Time

    constructor (tokens: real, last: Time)
      ensures this.tokens == tokens && this.last == last
    {
      this.tokens, this.last := tokens, last;
    }

    /** Refill up to now, then take a token if there is one. */
    method Charge(perHour: real, now: Time) returns (ok: bool, wait: Time)
      requires perHour > 0.0
      modifies this
      ensures var held := MinReal(perHour, old(tokens) + Refill(perHour, now - old(last)));
              && last == now
              && tokens == (if held < 1.0 then held else held - 1.0)
              && Reply(ok, wait) == if held < 1.0 then Reply(false, Wait(perHour, held)) else Reply(true, 0)
    {
      tokens := MinReal(perHour, tokens + Refill(perHour, now - last));
      last := now;
      if tokens < 1.0 {
        return false, Wait(perHour, tokens);
      }
      tokens := tokens - 1.0;
      return true, 0;
    }
  }

  /** Storing the full bucket a new user would be given changes nothing. */
  lemma NewIsFull(m: Buckets, perHour: real, key: string, now: Time)
    requires perHour > 0.0 && key !in m
    ensures var added := m[key := Bucket(perHour, now)];
            && ReplyTo(added, perHour, key, now) == ReplyTo(m, perHour, key, now)
            && Served(added, perHour, key, now) == Served(m, perHour, key, now)
  {
    hide Refill, Wait;
  }

  class Limiter {
    const perHour: real
    var buckets: map<string, Cell>
    ghost var Repr: set<object>

    /** No two users share a bucket. */
    ghost predicate Valid()
      reads this
    {
      && perHour >= 1.0
      && this in Repr
      && (forall key | key in buckets :: buckets[key] in Repr)
      && (forall j, k | j in buckets && k in buckets && j != k :: buckets[j] != buckets[k])
    }

    ghost function Abstract(): Buckets
      reads this, Repr
      requires Valid()
    {
      map key | key in buckets :: Bucket(buckets[key].tokens, buckets[key].last)
    }

    constructor (perHour: int)
      requires perHour > 0
      ensures Valid() && fresh(Repr) && Abstract() == map[] && this.perHour == perHour as real
    {
      this.perHour := perHour as real;
      buckets := map[];
      Repr := {this};
    }

    method Allow(key: string, now: Time) returns (ok: bool, wait: Time)
      requires Valid()
      modifies Repr
      ensures Valid() && fresh(Repr - old(Repr))
      ensures Reply(ok, wait) == ReplyTo(old(Abstract()), perHour, key, now)
      ensures Abstract() == Swept(Served(old(Abstract()), perHour, key, now), now)
    {
      hide ReplyTo, Served, Swept;
      Find(key, now);
      ok, wait := Spend(key, now);
      Sweep(now);
    }

    /** The user's bucket, a full one if there is none. */
    method Find(key: string, now: Time)
      requires Valid()
      modifies this
      ensures Valid() && fresh(Repr - old(Repr)) && key in buckets
      ensures ReplyTo(Abstract(), perHour, key, now) == ReplyTo(old(Abstract()), perHour, key, now)
      ensures Served(Abstract(), perHour, key, now) == Served(old(Abstract()), perHour, key, now)
    {
      hide Served, ReplyTo;
      if key !in buckets {
        NewIsFull(Abstract(), perHour, key, now);
        var b := new Cell(perHour, now);
        buckets := buckets[key := b];
        Repr := Repr + {b};
        assert Abstract() == old(Abstract())[key := Bucket(perHour, now)];
      }
    }

    /** Charge the user's bucket. */
    method Spend(key: string, now: Time) returns (ok: bool, wait: Time)
      requires Valid() && key in buckets
      modifies buckets[key]
      ensures Valid()
      ensures Reply(ok, wait) == ReplyTo(old(Abstract()), perHour, key, now)
      ensures Abstract() == Served(old(Abstract()), perHour, key, now)
    {
      var b := buckets[key];
      ok, wait := b.Charge(perHour, now);
      forall k | k in buckets && k != key ensures Abstract()[k] == old(Abstract())[k] {
        assert buckets[k] != b;
      }
    }

    /** Delete the buckets idle for over an hour, taking them in any order. */
    method DeleteIdle(now: Time)
      requires Valid()
      modifies this`buckets
      ensures Valid()
      ensures forall key :: key in buckets <==> key in old(buckets) && now - old(buckets)[key].last <= HOUR
      ensures forall key | key in buckets :: buckets[key] == old(buckets)[key]
    {
      var all, todo := buckets, buckets.Keys;
      while todo != {}
        invariant todo <= all.Keys
        invariant forall key | key in buckets :: key in all && buckets[key] == all[key]
        invariant forall key | key in all :: key in buckets <==> key in todo || now - all[key].last <= HOUR
        decreases |todo|
      {
        var key :| key in todo;
        if now - all[key].last > HOUR {
          buckets := buckets - {key};
        }
        todo := todo - {key};
      }
    }

    /** Drop the buckets idle for over an hour once there are many. */
    method Sweep(now: Time)
      requires Valid()
      modifies this`buckets
      ensures Valid()
      ensures Abstract() == Swept(old(Abstract()), now)
      ensures |old(buckets)| < 1024 ==> buckets == old(buckets)
      ensures |old(buckets)| >= 1024 ==> forall key :: key in buckets <==>
        key in old(buckets) && now - old(buckets)[key].last <= 3600 * 1_000_000_000
    {
      assert Abstract().Keys == buckets.Keys;
      if |buckets| < SWEEP_AT {
        return;
      }
      ghost var before := Abstract();
      DeleteIdle(now);
      assert Abstract() == Swept(before, now);
    }
  }

  /** newLimiter: a limit that is not positive means no limiter. */
  method NewLimiter(perHour: int) returns (l: Limiter?)
    ensures l == null <==> perHour <= 0
    ensures l != null ==> fresh(l.Repr) && l.Valid() && l.Abstract() == map[] && l.perHour == perHour as real
  {
    if perHour <= 0 {
      return null;
    }
    l := new Limiter(perHour);
  }
}
