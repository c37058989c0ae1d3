/** What the session list means: liveness, the eviction order, and the list as
    a function of everything ever recorded. */
module Sessions {
  import opened Common

  datatype Kind = Vpn | Ssh

  datatype Session = Session(
    user: string,
    profile: string,
    kind: Kind,
    serial: string,
    clientIp: string,
    issuedAt: Time,
    expiresAt: Time)
  {
    predicate Expired(t: Time) { t > expiresAt }
  }

  function Unexpired(now: Time): Session -> bool {
    (s: Session) => !s.Expired(now)
  }

  function OwnedBy(user: string): Session -> bool {
    (s: Session) => s.user == user
  }

  function Live(s: seq<Session>, now: Time): seq<Session> {
    Filter(s, Unexpired(now))
  }

  // ----- the eviction order -----

  /** Entry i is worth keeping over entry j: it expires later or, at the same
      expiry, it is nearer the front and so newer. */
  predicate Outranks(s: seq<Session>, i: nat, j: nat)
    requires i < |s| && j < |s|
  {
    s[i].expiresAt > s[j].expiresAt || (s[i].expiresAt == s[j].expiresAt && i < j)
  }

  /** The first entry to give up. */
  function Worst(s: seq<Session>): (w: nat)
    requires s != []
    ensures w < |s|
  {
    var last := |s| - 1;
    if last == 0 then 0
    else
      var w := Worst(s[..last]);
      if s[last].expiresAt <= s[w].expiresAt then last else w
  }

  lemma {:induction false} WorstRanksLast(s: seq<Session>)
    requires s != []
    ensures forall j: nat | j < |s| && j != Worst(s) :: Outranks(s, j, Worst(s))
  {
    var last := |s| - 1;
    if last > 0 {
      var front := s[..last];
      WorstRanksLast(front);
      var w := Worst(front);
      forall j: nat | j < |s| && j != Worst(s) ensures Outranks(s, j, Worst(s)) {
        assert j == last || j == w || Outranks(front, j, w);
      }
    }
  }

  function Remove<T>(s: seq<T>, i: nat): (r: seq<T>)
    requires i < |s|
    ensures |r| == |s| - 1
  {
    s[..i] + s[i + 1..]
  }

  /** Give up the worst entry until at most max are left. */
  function Best(s: seq<Session>, max: nat): seq<Session>
    decreases |s|
  {
    if |s| <= max then s else Best(Remove(s, Worst(s)), max)
  }

  lemma WorstUnique(s: seq<Session>, i: nat)
    requires i < |s|
    requires forall j: nat | j < |s| && j != i :: Outranks(s, j, i)
    ensures Worst(s) == i
  {
    WorstRanksLast(s);
    var w := Worst(s);
    assert w == i || Outranks(s, i, w);
    assert w == i || Outranks(s, w, i);
  }

  // ----- which entries Best keeps -----

  function CountTrue(keep: seq<bool>): nat {
    if keep == [] then 0 else (if keep[0] then 1 else 0) + CountTrue(keep[1..])
  }

  /** The entries a mask selects, in their original order. */
  function Select<T>(s: seq<T>, keep: seq<bool>): seq<T>
    requires |s| == |keep|
  {
    if s == [] then []
    else if keep[0] then [s[0]] + Select(s[1..], keep[1..])
    else Select(s[1..], keep[1..])
  }

  /** The mask keeps max entries, or all if there are fewer, and every entry it
      drops ranks below every entry it keeps. */
  ghost predicate KeepsGreatest(s: seq<Session>, keep: seq<bool>, max: nat) {
    && |keep| == |s|
    && CountTrue(keep) == Min(max, |s|)
    && forall i: nat, j: nat {:trigger Outranks(s, j, i)} |
         i < |s| && j < |s| && !keep[i] && keep[j] :: Outranks(s, j, i)
  }

  lemma {:induction false} CountTrueConcat(a: seq<bool>, b: seq<bool>)
    ensures CountTrue(a + b) == CountTrue(a) + CountTrue(b)
  {
    if a == [] {
      assert a + b == b;
    } else {
      assert (a + b)[1..] == a[1..] + b;
      CountTrueConcat(a[1..], b);
    }
  }

  lemma {:induction false} CountTrueBound(keep: seq<bool>)
    ensures CountTrue(keep) <= |keep|
    ensures CountTrue(keep) == |keep| <==> forall i | 0 <= i < |keep| :: keep[i]
  {
    if keep != [] {
      CountTrueBound(keep[1..]);
      assert forall i | 0 < i < |keep| :: keep[i] == keep[1..][i - 1];
    }
  }

  lemma CountTrueRemove(keep: seq<bool>, i: nat)
    requires i < |keep|
    ensures CountTrue(Remove(keep, i)) == CountTrue(keep) - if keep[i] then 1 else 0
  {
    assert CountTrue([keep[i]]) == if keep[i] then 1 else 0;
    hide CountTrue;
    CountTrueConcat(keep[..i], [keep[i]]);
    CountTrueConcat(keep[..i] + [keep[i]], keep[i + 1..]);
    CountTrueConcat(keep[..i], keep[i + 1..]);
    assert keep == keep[..i] + [keep[i]] + keep[i + 1..];
  }

  lemma {:induction false} SelectAll<T>(s: seq<T>, keep: seq<bool>)
    requires |s| == |keep| && forall i | 0 <= i < |keep| :: keep[i]
    ensures Select(s, keep) == s
  {
    if s != [] {
      SelectAll(s[1..], keep[1..]);
    }
  }

  lemma {:induction false} SelectRemove<T>(s: seq<T>, keep: seq<bool>, i: nat)
    requires |s| == |keep| && i < |s| && !keep[i]
    ensures Select(s, keep) == Select(Remove(s, i), Remove(keep, i))
  {
    if i == 0 {
      assert Remove(s, 0) == s[1..] && Remove(keep, 0) == keep[1..];
    } else {
      SelectRemove(s[1..], keep[1..], i - 1);
      assert Remove(s, i)[1..] == Remove(s[1..], i - 1);
      assert Remove(keep, i)[1..] == Remove(keep[1..], i - 1);
    }
  }

  lemma {:induction false} SelectConcat<T>(a: seq<T>, b: seq<T>, ka: seq<bool>, kb: seq<bool>)
    requires |a| == |ka| && |b| == |kb|
    ensures Select(a + b, ka + kb) == Select(a, ka) + Select(b, kb)
  {
    if a == [] {
      assert a + b == b && ka + kb == kb;
    } else {
      assert (a + b)[1..] == a[1..] + b && (ka + kb)[1..] == ka[1..] + kb;
      SelectConcat(a[1..], b, ka[1..], kb);
    }
  }

  /** Where entry k of a list stands once entry w is removed. */
  function ShiftDown(w: nat, k: nat): nat
    requires k != w
  {
    if k < w then k else k - 1
  }

  /** Where entry k of what is left stood before entry w was removed. */
  function ShiftUp(w: nat, k: nat): nat {
    if k < w then k else k + 1
  }

  lemma RemoveAt<T>(s: seq<T>, w: nat, k: nat)
    requires w < |s| && k < |s| && k != w
    ensures Remove(s, w)[ShiftDown(w, k)] == s[k]
  {
  }

  lemma OutranksRemove(s: seq<Session>, w: nat, i: nat, j: nat)
    requires w < |s| && i < |s| && j < |s| && i != w && j != w
    ensures Outranks(s, i, j) <==> Outranks(Remove(s, w), ShiftDown(w, i), ShiftDown(w, j))
  {
  }

  /** A mask that keeps the greatest of a list too long drops its worst entry. */
  lemma WorstIsDropped(s: seq<Session>, keep: seq<bool>, max: nat)
    requires |s| > max && KeepsGreatest(s, keep, max)
    ensures !keep[Worst(s)]
  {
    hide Worst, CountTrue;
    CountTrueBound(keep);
    var w := Worst(s);
    WorstRanksLast(s);
    var d: nat :| d < |s| && !keep[d];
    assert keep[w] ==> Outranks(s, w, d);
    assert d == w || Outranks(s, d, w);
  }

  /** And it still keeps the greatest of the rest. */
  lemma MaskOfRest(s: seq<Session>, keep: seq<bool>, w: nat, max: nat)
    requires |s| > max && KeepsGreatest(s, keep, max) && w < |s| && !keep[w]
    ensures KeepsGreatest(Remove(s, w), Remove(keep, w), max)
  {
    hide Remove, CountTrue, Outranks;
    CountTrueRemove(keep, w);
    var s', keep' := Remove(s, w), Remove(keep, w);
    forall i: nat, j: nat | i < |s'| && j < |s'| && !keep'[i] && keep'[j]
      ensures Outranks(s', j, i)
    {
      RemoveAt(keep, w, ShiftUp(w, i));
      RemoveAt(keep, w, ShiftUp(w, j));
      OutranksRemove(s, w, ShiftUp(w, j), ShiftUp(w, i));
      assert Outranks(s, ShiftUp(w, j), ShiftUp(w, i));
    }
  }

  /** Best is the only selection that keeps the greatest: any mask keeping max
      entries none of which ranks below a dropped one selects the same list. */
  lemma {:induction false} BestIsGreatest(s: seq<Session>, keep: seq<bool>, max: nat)
    requires KeepsGreatest(s, keep, max)
    ensures Select(s, keep) == Best(s, max)
    decreases |s|
  {
    CountTrueBound(keep);
    hide Worst, Remove, CountTrue;
    if |s| <= max {
      SelectAll(s, keep);
    } else {
      WorstIsDropped(s, keep, max);
      MaskOfRest(s, keep, Worst(s), max);
      SelectRemove(s, keep, Worst(s));
      BestIsGreatest(Remove(s, Worst(s)), Remove(keep, Worst(s)), max);
    }
  }

  /** Dropping the worst entry as well keeps a mask the greatest. */
  lemma MaskWithoutWorst(s: seq<Session>, rest: seq<bool>, keep: seq<bool>, max: nat)
    requires |s| > max && KeepsGreatest(Remove(s, Worst(s)), rest, max)
    requires |keep| == |s| && !keep[Worst(s)] && Remove(keep, Worst(s)) == rest
    ensures KeepsGreatest(s, keep, max)
  {
    hide Worst, Remove, CountTrue, Outranks;
    var w := Worst(s);
    WorstRanksLast(s);
    CountTrueRemove(keep, w);
    forall i: nat, j: nat | i < |s| && j < |s| && !keep[i] && keep[j]
      ensures Outranks(s, j, i)
    {
      if i != w {
        RemoveAt(keep, w, i);
        RemoveAt(keep, w, j);
        OutranksRemove(s, w, j, i);
        assert Outranks(Remove(s, w), ShiftDown(w, j), ShiftDown(w, i));
      }
    }
  }

  /** Such a mask exists, so Best is an order-preserving sublist of length
      min(max, |s|) and what it drops ranks below what it keeps. */
  lemma {:induction false} BestMask(s: seq<Session>, max: nat) returns (keep: seq<bool>)
    ensures KeepsGreatest(s, keep, max)
    ensures Select(s, keep) == Best(s, max)
    ensures |Best(s, max)| == Min(max, |s|)
    decreases |s|
  {
    hide Worst;
    if |s| <= max {
      keep := seq(|s|, _ => true);
      CountTrueBound(keep);
      SelectAll(s, keep);
    } else {
      var w := Worst(s);
      var rest := BestMask(Remove(s, w), max);
      keep := rest[..w] + [false] + rest[w..];
      assert Remove(keep, w) == rest;
      MaskWithoutWorst(s, rest, keep, max);
      SelectRemove(s, keep, w);
    }
  }

  // ----- evicting early never changes a later answer -----

  lemma LiveConcat(a: seq<Session>, b: seq<Session>, now: Time)
    ensures Live(a + b, now) == Live(a, now) + Live(b, now)
  {
    FilterConcat(a, b, Unexpired(now));
  }

  lemma LiveLater(s: seq<Session>, t: Time, now: Time)
    requires t <= now
    ensures Live(Live(s, t), now) == Live(s, now)
  {
    FilterTwice(s, Unexpired(t), Unexpired(now));
  }

  /** Removing the worst entry early, before expired ones are dropped. */
  lemma LiveRemoveWorst(s: seq<Session>, now: Time)
    requires s != []
    ensures if s[Worst(s)].Expired(now) then Live(Remove(s, Worst(s)), now) == Live(s, now)
            else Live(s, now) == s && Live(Remove(s, Worst(s)), now) == Remove(s, Worst(s))
  {
    var w := Worst(s);
    WorstRanksLast(s);
    if s[w].Expired(now) {
      assert s == s[..w] + ([s[w]] + s[w + 1..]);
      LiveConcat(s[..w], [s[w]] + s[w + 1..], now);
      LiveConcat([s[w]], s[w + 1..], now);
      LiveConcat(s[..w], s[w + 1..], now);
      assert Live([s[w]], now) == [];
    } else {
      forall x | x in s ensures !x.Expired(now) {
        var i: nat :| i < |s| && s[i] == x;
        assert i != w ==> Outranks(s, i, w);
      }
      FilterAll(s, Unexpired(now));
      FilterAll(Remove(s, w), Unexpired(now));
    }
  }

  /** Evicting before expiry is the same as evicting after it. This is where the
      eviction order has to agree with the expiry order. */
  lemma {:induction false} BestOfLive(s: seq<Session>, now: Time, max: nat)
    ensures Best(Live(Best(s, max), now), max) == Best(Live(s, now), max)
    decreases |s|
  {
    if |s| > max {
      LiveRemoveWorst(s, now);
      BestOfLive(Remove(s, Worst(s)), now, max);
    }
  }

  lemma WorstOfPrepend(x: Session, s: seq<Session>)
    requires s != []
    ensures Worst([x] + s) == if x.expiresAt >= s[Worst(s)].expiresAt then Worst(s) + 1 else 0
  {
    var w := Worst(s);
    WorstRanksLast(s);
    var all := [x] + s;
    forall j: nat | j < |s| ensures s[j].expiresAt >= s[w].expiresAt && (s[j].expiresAt == s[w].expiresAt ==> j <= w) {
      assert j == w || Outranks(s, j, w);
    }
    assert forall j: nat | 0 < j < |all| :: all[j] == s[j - 1];
    WorstUnique(all, if x.expiresAt >= s[w].expiresAt then w + 1 else 0);
  }

  lemma BestUnfold(s: seq<Session>, max: nat, w: nat)
    requires |s| > max && Worst(s) == w
    ensures Best(s, max) == Best(Remove(s, w), max)
  {
  }

  /** An arrival that expires before everything listed is itself the worst. */
  lemma BestOfPrependWorst(x: Session, s: seq<Session>, max: nat)
    requires |s| >= max
    requires s != [] ==> x.expiresAt < s[Worst(s)].expiresAt
    ensures Best([x] + s, max) == Best(s, max)
  {
    if s != [] {
      WorstOfPrepend(x, s);
    }
    assert Remove([x] + s, 0) == s;
    BestUnfold([x] + s, max, 0);
  }

  /** What is left after the worst goes expires no sooner than it did. */
  lemma NextWorst(s: seq<Session>)
    requires |s| > 1
    ensures Remove(s, Worst(s))[Worst(Remove(s, Worst(s)))].expiresAt >= s[Worst(s)].expiresAt
  {
    hide Worst, Remove;
    var w := Worst(s);
    var v := Worst(Remove(s, w));
    WorstRanksLast(s);
    RemoveAt(s, w, ShiftUp(w, v));
    assert Outranks(s, ShiftUp(w, v), w);
  }

  /** A newer arrival meets the same fate whether or not the worst entry of a
      full list has gone already. */
  lemma BestOfPrependStep(x: Session, s: seq<Session>, max: nat)
    requires |s| > max
    ensures Best([x] + s, max) == Best([x] + Remove(s, Worst(s)), max)
  {
    hide Best, Worst;
    var w := Worst(s);
    var r := Remove(s, w);
    WorstOfPrepend(x, s);
    if x.expiresAt >= s[w].expiresAt {
      assert Remove([x] + s, w + 1) == [x] + r;
      BestUnfold([x] + s, max, w + 1);
    } else {
      BestOfPrependWorst(x, s, max);
      if r != [] {
        NextWorst(s);
      }
      BestOfPrependWorst(x, r, max);
      BestUnfold(s, max, w);
    }
  }

  /** Evicting before a newer entry arrives is the same as evicting after. */
  lemma {:induction false} BestOfPrepend(x: Session, s: seq<Session>, max: nat)
    ensures Best([x] + Best(s, max), max) == Best([x] + s, max)
    decreases |s|
  {
    if |s| > max {
      BestOfPrependStep(x, s, max);
      BestOfPrepend(x, Remove(s, Worst(s)), max);
    }
  }
}
