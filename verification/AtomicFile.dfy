/** Replacing a file by rename, as interleaved steps of any number of writers over
    what readers see and what survives a crash. */
module AtomicFile {
  import opened Common

  type Name = string
  type Inode = nat
  type Id = nat

  // ----- the file system -----

  /** A state of the directory that a crash may bring back, and how many renames
      onto the target it includes. */
  datatype Version = Version(dir: map<Name, Inode>, landed: nat)

  /** dir and data are what readers see. A crash keeps the data of synced files
      only, and rebuilds each name from some version since the last directory
      sync. */
  datatype Disk = Disk(dir: map<Name, Inode>, data: map<Inode, Bytes>, synced: set<Inode>, versions: seq<Version>)

  // ----- the writers -----

  /** Where a call of Write has got to. Removing is the deferred Remove. */
  datatype Phase =
    | Created | Moded | Rendered | Flushed | Closed | Renamed
    | Removing(ok: bool) | Returned(ok: bool) | Dead

  /** body is what the render has written so far. */
  datatype Writer = Writer(phase: Phase, tmp: Name, inode: Inode, body: Bytes)
  {
    /** The writer still owns its temporary file. */
    predicate Building() { phase.Created? || phase.Moded? || phase.Rendered? || phase.Flushed? || phase.Closed? }
  }

  datatype Landing = Landing(id: Id, body: Bytes)

  /** Besides the disk and the writers: the file being replaced and what it held,
      the renames that have landed, and how many of those no crash can undo. */
  datatype System = System(
    disk: Disk,
    writers: map<Id, Writer>,
    target: Name,
    initial: Option<Bytes>,
    landed: seq<Landing>,
    durable: nat)

  datatype Step =
    | Create(id: Id, tmp: Name, inode: Inode)
    | Chmod(id: Id)
    | Put(id: Id, chunk: Bytes)
    | Finish(id: Id)
    | Sync(id: Id)
    | Close(id: Id)
    | Rename(id: Id)
    | SyncDir(id: Id)
    | Fail(id: Id)
    | Unlink(id: Id, removed: bool)
    | Crash(dir: map<Name, Inode>, data: map<Inode, Bytes>, at: nat)

  /** What a reader opening the target finds. */
  function Read(s: System): Option<Bytes> {
    var d := s.disk;
    if s.target in d.dir && d.dir[s.target] in d.data then Some(d.data[d.dir[s.target]]) else None
  }

  predicate At(s: System, id: Id, phase: Phase) {
    id in s.writers && s.writers[id].phase == phase
  }

  /** Whether two directories agree about a name. */
  predicate SameName(a: map<Name, Inode>, b: map<Name, Inode>, n: Name) {
    (n in a <==> n in b) && (n in a ==> n in b && a[n] == b[n])
  }

  /** A writer still building its file holds the name, whether or not the directory
      still has it. */
  predicate Held(s: System, tmp: Name) {
    exists id | id in s.writers :: s.writers[id].Building() && s.writers[id].tmp == tmp
  }

  /** What may happen next. CreateTemp picks a name no file has; reuse says whether
      it may pick one that is held all the same. Any step may fail instead. */
  ghost predicate Enabled(s: System, step: Step, reuse: bool) {
    match step
    case Create(id, tmp, inode) =>
      && id !in s.writers && tmp !in s.disk.dir && tmp != s.target && inode !in s.disk.data
      && (reuse || !Held(s, tmp))
    case Chmod(id) => At(s, id, Created)
    case Put(id, _) => At(s, id, Moded) && s.writers[id].inode in s.disk.data
    case Finish(id) => At(s, id, Moded)
    case Sync(id) => At(s, id, Rendered)
    case Close(id) => At(s, id, Flushed)
    case Rename(id) => At(s, id, Closed) && s.writers[id].tmp in s.disk.dir
    case SyncDir(id) => At(s, id, Renamed)
    case Fail(id) => id in s.writers && (s.writers[id].Building() || s.writers[id].phase.Renamed?)
    case Unlink(id, _) => id in s.writers && s.writers[id].phase.Removing?
    case Crash(dir, data, at) =>
      && at < |s.disk.versions|
      && SameName(dir, s.disk.versions[at].dir, s.target)
      && (forall n | n in dir :: exists k: nat | k < |s.disk.versions| :: SameName(dir, s.disk.versions[k].dir, n))
      && data.Keys == s.disk.data.Keys
      && (forall i | i in s.disk.synced && i in data :: data[i] == s.disk.data[i])
  }

  function SetPhase(s: System, id: Id, phase: Phase): System {
    if id in s.writers then s.(writers := s.writers[id := s.writers[id].(phase := phase)]) else s
  }

  /** A changed directory joins the versions a crash may bring back. */
  function SetDir(s: System, dir: map<Name, Inode>): System {
    s.(disk := s.disk.(dir := dir, versions := s.disk.versions + [Version(dir, |s.landed|)]))
  }

  function AfterCrash(w: Writer): Writer {
    if w.phase.Returned? then w else w.(phase := Dead)
  }

  /** A new writer with an empty file. */
  function Started(s: System, id: Id, tmp: Name, inode: Inode): System {
    SetDir(s.(disk := s.disk.(data := s.disk.data[inode := []]),
              writers := s.writers[id := Writer(Created, tmp, inode, [])]),
           s.disk.dir[tmp := inode])
  }

  /** A chunk written; the file has to be flushed again. */
  function Extended(s: System, id: Id, chunk: Bytes): System
    requires id in s.writers
  {
    var w := s.writers[id];
    s.(writers := s.writers[id := w.(body := w.body + chunk)],
       disk := s.disk.(
         data := s.disk.data[w.inode := (if w.inode in s.disk.data then s.disk.data[w.inode] else []) + chunk],
         synced := s.disk.synced - {w.inode}))
  }

  /** The temporary name, whatever it leads to, becomes the target. */
  function Moved(s: System, id: Id): System
    requires id in s.writers && s.writers[id].tmp in s.disk.dir
  {
    var w := s.writers[id];
    var dir := (s.disk.dir - {w.tmp})[s.target := s.disk.dir[w.tmp]];
    SetDir(SetPhase(s, id, Renamed).(landed := s.landed + [Landing(id, w.body)]), dir)
  }

  function DirSynced(s: System): System {
    s.(disk := s.disk.(versions := [Version(s.disk.dir, |s.landed|)]), durable := |s.landed|)
  }

  function Flush(s: System, inode: Inode): System {
    s.(disk := s.disk.(synced := s.disk.synced + {inode}))
  }

  function Crashed(s: System, dir: map<Name, Inode>, data: map<Inode, Bytes>, n: nat): System
    requires n <= |s.landed|
  {
    s.(disk := Disk(dir, data, data.Keys, [Version(dir, n)]),
       writers := map id | id in s.writers :: AfterCrash(s.writers[id]),
       landed := s.landed[..n],
       durable := n)
  }

  function Apply(s: System, step: Step): System {
    match step
    case Create(id, tmp, inode) => Started(s, id, tmp, inode)
    case Chmod(id) => SetPhase(s, id, Moded)
    case Put(id, chunk) => if id in s.writers then Extended(s, id, chunk) else s
    case Finish(id) => SetPhase(s, id, Rendered)
    case Sync(id) => if id in s.writers then SetPhase(Flush(s, s.writers[id].inode), id, Flushed) else s
    case Close(id) => SetPhase(s, id, Closed)
    case Rename(id) => if id in s.writers && s.writers[id].tmp in s.disk.dir then Moved(s, id) else s
    case SyncDir(id) => SetPhase(DirSynced(s), id, Removing(true))
    case Fail(id) => SetPhase(s, id, Removing(false))
    case Unlink(id, removed) =>
      if id !in s.writers || !s.writers[id].phase.Removing? then s
      else
        var done := SetPhase(s, id, Returned(s.writers[id].phase.ok));
        if removed then SetDir(done, s.disk.dir - {s.writers[id].tmp}) else done
    case Crash(dir, data, at) =>
      if at < |s.disk.versions| && s.disk.versions[at].landed <= |s.landed|
      then Crashed(s, dir, data, s.disk.versions[at].landed)
      else s
  }

  function Exec(s: System, steps: seq<Step>): System {
    if steps == [] then s else Apply(Exec(s, steps[..|steps| - 1]), steps[|steps| - 1])
  }

  ghost predicate ValidRun(s: System, steps: seq<Step>, reuse: bool) {
    steps == []
    || (ValidRun(s, steps[..|steps| - 1], reuse)
        && Enabled(Exec(s, steps[..|steps| - 1]), steps[|steps| - 1], reuse))
  }

  /** No writers yet; the target absent, or present and safely on disk. */
  ghost predicate Initial(s: System) {
    && s.writers == map[] && s.landed == [] && s.durable == 0
    && s.disk.versions == [Version(s.disk.dir, 0)]
    && (forall n | n in s.disk.dir :: s.disk.dir[n] in s.disk.data)
    && s.initial == Read(s)
    && (s.target in s.disk.dir ==> s.disk.dir[s.target] in s.disk.synced)
  }

  // ----- the invariant -----

  /** What the target should hold once a number of renames have landed. */
  function Content(initial: Option<Bytes>, landed: seq<Landing>, n: nat): Option<Bytes>
    requires n <= |landed|
  {
    if n == 0 then initial else Some(landed[n - 1].body)
  }

  /** A directory state in which the target is whole and would survive a crash. */
  ghost predicate Whole(s: System, v: Version) {
    && s.durable <= v.landed <= |s.landed|
    && (forall n | n in v.dir :: v.dir[n] in s.disk.data)
    && (s.target !in v.dir ==> Content(s.initial, s.landed, v.landed) == None)
    && (s.target in v.dir ==>
        && v.dir[s.target] in s.disk.synced
        && Content(s.initial, s.landed, v.landed) == Some(s.disk.data[v.dir[s.target]])
        && forall id | id in s.writers && s.writers[id].Building() :: s.writers[id].inode != v.dir[s.target])
  }

  /** A writer that still owns its file owns it alone: the file holds what it has
      rendered, and its name, if there, leads to that file. */
  ghost predicate Owns(s: System, id: Id)
    requires id in s.writers
  {
    var w := s.writers[id];
    && w.tmp != s.target
    && (w.Building() ==>
        && (w.tmp in s.disk.dir ==> s.disk.dir[w.tmp] == w.inode)
        && w.inode in s.disk.data && s.disk.data[w.inode] == w.body)
    && (w.phase.Flushed? || w.phase.Closed? ==> w.inode in s.disk.synced)
  }

  ghost predicate Separate(s: System, i: Id, j: Id)
    requires i in s.writers && j in s.writers
  {
    var v, w := s.writers[i], s.writers[j];
    v.Building() && w.Building() ==> v.tmp != w.tmp && v.inode != w.inode
  }

  /** A writer's rename is among the first so many to land. */
  ghost predicate LandedWithin(landed: seq<Landing>, id: Id, n: nat) {
    exists k: nat | k < n && k < |landed| :: landed[k].id == id
  }

  /** The newest version is what readers see, and every version is whole. */
  ghost predicate DiskInv(s: System) {
    && |s.disk.versions| > 0
    && s.disk.versions[|s.disk.versions| - 1] == Version(s.disk.dir, |s.landed|)
    && (forall k: nat | k < |s.disk.versions| :: Whole(s, s.disk.versions[k]))
  }

  ghost predicate OwnerInv(s: System) {
    && (forall id | id in s.writers :: Owns(s, id))
    && (forall i, j | i in s.writers && j in s.writers && i != j :: Separate(s, i, j))
  }

  /** A writer past its directory sync has a rename no crash can undo. */
  ghost predicate HasLanded(s: System, id: Id)
    requires id in s.writers
  {
    var phase := s.writers[id].phase;
    && (phase == Removing(true) || phase == Returned(true) ==> LandedWithin(s.landed, id, s.durable))
    && (phase == Renamed ==> LandedWithin(s.landed, id, |s.landed|))
  }

  ghost predicate LandingInv(s: System) {
    && (forall id | id in s.writers :: HasLanded(s, id))
    && (forall k: nat | k < |s.landed| :: WasRendered(s, k))
  }

  ghost predicate Inv(s: System) {
    DiskInv(s) && OwnerInv(s) && LandingInv(s)
  }

  /** A landed body is everything its writer rendered, and stays so. */
  ghost predicate WasRendered(s: System, k: nat)
    requires k < |s.landed|
  {
    var l := s.landed[k];
    l.id in s.writers && s.writers[l.id].body == l.body && !s.writers[l.id].Building()
  }

  lemma InitialInv(s: System)
    requires Initial(s)
    ensures Inv(s)
  {
  }

  /** Writers in the same phases with the same files keep what they own. */
  lemma OwnersKept(s: System, t: System)
    requires OwnerInv(s) && t.writers.Keys == s.writers.Keys
    requires forall id | id in s.writers ::
      && t.writers[id].tmp == s.writers[id].tmp && t.writers[id].inode == s.writers[id].inode
      && (t.writers[id].Building() ==> s.writers[id].Building())
      && Owns(t, id)
    ensures OwnerInv(t)
  {
    forall i, j | i in t.writers && j in t.writers && i != j ensures Separate(t, i, j) {
      assert Separate(s, i, j);
    }
  }

  /** What has landed stays landed while writers only move on. */
  lemma LandingsKept(s: System, t: System)
    requires LandingInv(s) && t.writers.Keys == s.writers.Keys && t.landed <= s.landed
    requires forall id | id in s.writers ::
      && (t.writers[id].Building() ==> s.writers[id].Building())
      && (t.writers[id].body == s.writers[id].body || s.writers[id].Building())
      && HasLanded(t, id)
    ensures LandingInv(t)
  {
    forall k: nat | k < |t.landed| ensures WasRendered(t, k) {
      assert WasRendered(s, k);
    }
  }

  // ----- each step keeps it -----

  lemma StartedDisk(s: System, id: Id, tmp: Name, inode: Inode)
    requires DiskInv(s) && id !in s.writers && tmp != s.target && inode !in s.disk.data
    ensures DiskInv(Started(s, id, tmp, inode))
  {
    hide Content;
    var t := Started(s, id, tmp, inode);
    var n := |s.disk.versions|;
    forall k: nat | k < |t.disk.versions| ensures Whole(t, t.disk.versions[k]) {
      assert Whole(s, s.disk.versions[if k < n then k else n - 1]);
    }
  }

  lemma StartedOwners(s: System, id: Id, tmp: Name, inode: Inode)
    requires OwnerInv(s) && id !in s.writers && tmp != s.target && inode !in s.disk.data
    requires !Held(s, tmp)
    ensures OwnerInv(Started(s, id, tmp, inode))
  {
    var t := Started(s, id, tmp, inode);
    forall i | i in t.writers ensures Owns(t, i) {
      assert i != id ==> Owns(s, i);
    }
    forall i, j | i in t.writers && j in t.writers && i != j ensures Separate(t, i, j) {
      assert i != id ==> Owns(s, i);
      assert j != id ==> Owns(s, j);
      assert i != id && j != id ==> Separate(s, i, j);
    }
  }

  lemma StartedLandings(s: System, id: Id, tmp: Name, inode: Inode)
    requires LandingInv(s) && id !in s.writers
    ensures LandingInv(Started(s, id, tmp, inode))
  {
    hide LandedWithin;
    var t := Started(s, id, tmp, inode);
    forall k: nat | k < |t.landed| ensures WasRendered(t, k) {
      assert WasRendered(s, k);
    }
    forall i | i in t.writers ensures HasLanded(t, i) {
      assert i != id ==> HasLanded(s, i);
    }
  }

  lemma CreateKeeps(s: System, step: Step)
    requires Inv(s) && step.Create? && Enabled(s, step, false)
    ensures Inv(Apply(s, step))
  {
    hide DiskInv, OwnerInv, LandingInv, Started, Held;
    StartedDisk(s, step.id, step.tmp, step.inode);
    StartedOwners(s, step.id, step.tmp, step.inode);
    StartedLandings(s, step.id, step.tmp, step.inode);
  }

  lemma ExtendedDisk(s: System, id: Id, chunk: Bytes)
    requires DiskInv(s) && At(s, id, Moded) && s.writers[id].inode in s.disk.data
    ensures DiskInv(Extended(s, id, chunk))
  {
    hide Content;
    var t := Extended(s, id, chunk);
    forall k: nat | k < |t.disk.versions| ensures Whole(t, t.disk.versions[k]) {
      assert Whole(s, s.disk.versions[k]);
    }
  }

  lemma ExtendedWriters(s: System, id: Id, chunk: Bytes)
    requires OwnerInv(s) && LandingInv(s) && At(s, id, Moded) && s.writers[id].inode in s.disk.data
    ensures OwnerInv(Extended(s, id, chunk)) && LandingInv(Extended(s, id, chunk))
  {
    hide LandedWithin;
    var t := Extended(s, id, chunk);
    forall i | i in t.writers ensures Owns(t, i) && HasLanded(t, i) {
      assert Owns(s, i) && HasLanded(s, i);
      assert i == id || Separate(s, i, id);
    }
    hide Owns, HasLanded;
    OwnersKept(s, t);
    LandingsKept(s, t);
  }

  lemma PutKeeps(s: System, step: Step)
    requires Inv(s) && step.Put? && Enabled(s, step, false)
    ensures Inv(Apply(s, step))
  {
    hide DiskInv, OwnerInv, LandingInv, Extended;
    ExtendedDisk(s, step.id, step.chunk);
    ExtendedWriters(s, step.id, step.chunk);
  }

  lemma MovedDisk(s: System, id: Id)
    requires DiskInv(s) && OwnerInv(s) && At(s, id, Closed) && s.writers[id].tmp in s.disk.dir
    ensures DiskInv(Moved(s, id))
  {
    var t := Moved(s, id);
    var w := s.writers[id];
    var n := |s.disk.versions|;
    assert Owns(s, id);
    forall i | i in t.writers && t.writers[i].Building() ensures t.writers[i].inode != w.inode {
      assert Separate(s, i, id);
    }
    hide OwnerInv, Owns, Separate;
    assert Whole(s, s.disk.versions[n - 1]);
    forall k: nat | k < n ensures Whole(t, t.disk.versions[k]) {
      assert Whole(s, s.disk.versions[k]);
    }
    assert Whole(t, t.disk.versions[n]);
  }

  lemma MovedOwners(s: System, id: Id)
    requires OwnerInv(s) && At(s, id, Closed) && s.writers[id].tmp in s.disk.dir
    ensures OwnerInv(Moved(s, id))
  {
    var t := Moved(s, id);
    forall i | i in t.writers ensures Owns(t, i) {
      assert Owns(s, i);
      assert i == id || Separate(s, i, id);
    }
    hide Owns;
    OwnersKept(s, t);
  }

  lemma MovedLandings(s: System, id: Id)
    requires LandingInv(s) && At(s, id, Closed) && s.writers[id].tmp in s.disk.dir
    ensures LandingInv(Moved(s, id))
  {
    var t := Moved(s, id);
    forall k: nat | k < |t.landed| ensures WasRendered(t, k) {
      assert k < |s.landed| ==> WasRendered(s, k);
    }
    assert t.landed[|s.landed|].id == id;
    forall i | i in t.writers ensures HasLanded(t, i) {
      assert HasLanded(s, i);
      LandedLater(s.landed, t.landed, i, s.durable, t.durable);
      LandedLater(s.landed, t.landed, i, |s.landed|, |t.landed|);
    }
  }

  lemma RenameKeeps(s: System, step: Step)
    requires Inv(s) && step.Rename? && Enabled(s, step, false)
    ensures Inv(Apply(s, step))
  {
    hide DiskInv, OwnerInv, LandingInv, Moved;
    MovedDisk(s, step.id);
    MovedOwners(s, step.id);
    MovedLandings(s, step.id);
  }

  lemma LandedLater(before: seq<Landing>, after: seq<Landing>, id: Id, m: nat, n: nat)
    requires before <= after && m <= n
    ensures LandedWithin(before, id, m) ==> LandedWithin(after, id, n)
  {
    if LandedWithin(before, id, m) {
      var k: nat :| k < m && k < |before| && before[k].id == id;
      assert after[k].id == id;
    }
  }

  /** A writer moves on to a phase it has earned. */
  ghost predicate MayEnter(s: System, id: Id, phase: Phase)
    requires id in s.writers
  {
    var w := s.writers[id];
    && (w.(phase := phase).Building() ==> w.Building())
    && (phase.Flushed? || phase.Closed? ==> w.inode in s.disk.synced)
    && (phase == Removing(true) || phase == Returned(true) ==> LandedWithin(s.landed, id, s.durable))
    && (phase == Renamed ==> LandedWithin(s.landed, id, |s.landed|))
  }

  lemma SetPhaseKeeps(s: System, id: Id, phase: Phase)
    requires Inv(s) && id in s.writers && MayEnter(s, id, phase)
    ensures Inv(SetPhase(s, id, phase))
  {
    hide Content, LandedWithin;
    var t := SetPhase(s, id, phase);
    assert DiskInv(t) by {
      hide OwnerInv, LandingInv;
      forall k: nat | k < |t.disk.versions| ensures Whole(t, t.disk.versions[k]) {
        assert Whole(s, s.disk.versions[k]);
      }
    }
    hide DiskInv, Whole;
    forall i | i in t.writers ensures Owns(t, i) && HasLanded(t, i) {
      assert Owns(s, i) && HasLanded(s, i);
    }
    hide Owns, HasLanded;
    OwnersKept(s, t);
    LandingsKept(s, t);
  }

  lemma FlushKeeps(s: System, inode: Inode)
    requires Inv(s)
    ensures Inv(Flush(s, inode))
  {
    hide Content, LandedWithin;
    var t := Flush(s, inode);
    forall k: nat | k < |t.disk.versions| ensures Whole(t, t.disk.versions[k]) {
      assert Whole(s, s.disk.versions[k]);
    }
    hide Whole;
    forall i | i in t.writers ensures Owns(t, i) && HasLanded(t, i) {
      assert Owns(s, i) && HasLanded(s, i);
    }
    hide Owns, HasLanded;
    OwnersKept(s, t);
    LandingsKept(s, t);
  }

  lemma SyncDirKeeps(s: System)
    requires Inv(s)
    ensures Inv(DirSynced(s))
  {
    var t := DirSynced(s);
    var last := |s.disk.versions| - 1;
    assert Whole(s, s.disk.versions[last]);
    assert Whole(t, t.disk.versions[0]);
    hide Whole;
    forall i | i in t.writers ensures Owns(t, i) && HasLanded(t, i) {
      assert Owns(s, i) && HasLanded(s, i);
      LandedLater(s.landed, t.landed, i, s.durable, t.durable);
    }
    hide Owns, HasLanded;
    OwnersKept(s, t);
    LandingsKept(s, t);
  }

  lemma DropNameKeeps(s: System, id: Id)
    requires Inv(s) && id in s.writers && !s.writers[id].Building()
    ensures Inv(SetDir(s, s.disk.dir - {s.writers[id].tmp}))
  {
    hide Content, LandedWithin;
    var t := SetDir(s, s.disk.dir - {s.writers[id].tmp});
    var n := |s.disk.versions|;
    assert Owns(s, id);
    forall k: nat | k < |t.disk.versions| ensures Whole(t, t.disk.versions[k]) {
      assert Whole(s, s.disk.versions[if k < n then k else n - 1]);
    }
    hide Whole;
    forall i | i in t.writers ensures Owns(t, i) && HasLanded(t, i) {
      assert Owns(s, i) && HasLanded(s, i);
      assert i == id || Separate(s, i, id);
    }
    hide Owns, HasLanded;
    OwnersKept(s, t);
    LandingsKept(s, t);
  }

  lemma StoppedOwnNothing(s: System, t: System)
    requires t.writers.Keys == s.writers.Keys
    requires forall id | id in t.writers :: t.writers[id] == AfterCrash(s.writers[id])
    ensures forall id | id in t.writers :: !t.writers[id].Building()
  {
  }

  /** Whichever version the target comes back from, it comes back whole. */
  lemma CrashLeavesWhole(s: System, dir: map<Name, Inode>, data: map<Inode, Bytes>, at: nat)
    requires DiskInv(s) && Enabled(s, Crash(dir, data, at), false)
    ensures var v := s.disk.versions[at];
            && s.durable <= v.landed <= |s.landed|
            && Whole(Crashed(s, dir, data, v.landed), Version(dir, v.landed))
  {
    var v := s.disk.versions[at];
    assert Whole(s, v);
    var t := Crashed(s, dir, data, v.landed);
    StoppedOwnNothing(s, t);
    hide AfterCrash;
    assert Content(t.initial, t.landed, v.landed) == Content(s.initial, s.landed, v.landed);
    forall n | n in dir ensures dir[n] in data {
      var k: nat :| k < |s.disk.versions| && SameName(dir, s.disk.versions[k].dir, n);
      assert Whole(s, s.disk.versions[k]);
    }
  }

  /** Writers that a crash stops own nothing; those that had returned still have
      their renames. */
  lemma StoppedKeep(s: System, t: System)
    requires OwnerInv(s) && LandingInv(s)
    requires t.writers.Keys == s.writers.Keys && t.target == s.target
    requires forall id | id in t.writers :: t.writers[id] == AfterCrash(s.writers[id])
    requires t.landed <= s.landed && s.durable <= |t.landed| == t.durable
    ensures OwnerInv(t) && LandingInv(t)
  {
    forall i | i in t.writers ensures Owns(t, i) && HasLanded(t, i) {
      assert Owns(s, i) && HasLanded(s, i);
      LandedBefore(s.landed, t.landed, i, s.durable);
    }
    hide Owns, HasLanded;
    OwnersKept(s, t);
    LandingsKept(s, t);
  }

  lemma CrashKeeps(s: System, step: Step)
    requires Inv(s) && step.Crash? && Enabled(s, step, false)
    ensures Inv(Apply(s, step))
  {
    hide OwnerInv, LandingInv, Whole, AfterCrash;
    CrashLeavesWhole(s, step.dir, step.data, step.at);
    StoppedKeep(s, Apply(s, step));
  }

  /** A crash may take back renames, but not the durable ones. */
  lemma LandedBefore(before: seq<Landing>, after: seq<Landing>, id: Id, n: nat)
    requires after <= before && n <= |after|
    ensures LandedWithin(before, id, n) ==> LandedWithin(after, id, |after|)
  {
    if LandedWithin(before, id, n) {
      var k: nat :| k < n && k < |before| && before[k].id == id;
      assert after[k].id == id;
    }
  }

  /** Chmod, Finish, Close and Fail only move their writer on. */
  lemma MoveKeeps(s: System, step: Step)
    requires Inv(s) && Enabled(s, step, false)
    requires step.Chmod? || step.Finish? || step.Close? || step.Fail?
    ensures Inv(Apply(s, step))
  {
    assert Owns(s, step.id);
    hide Inv, LandedWithin;
    SetPhaseKeeps(s, step.id,
      match step case Chmod(_) => Moded case Finish(_) => Rendered case Close(_) => Closed case _ => Removing(false));
  }

  lemma SyncKeeps(s: System, step: Step)
    requires Inv(s) && step.Sync? && Enabled(s, step, false)
    ensures Inv(Apply(s, step))
  {
    hide Inv, LandedWithin;
    var inode := s.writers[step.id].inode;
    FlushKeeps(s, inode);
    SetPhaseKeeps(Flush(s, inode), step.id, Flushed);
  }

  lemma SyncDirStepKeeps(s: System, step: Step)
    requires Inv(s) && step.SyncDir? && Enabled(s, step, false)
    ensures Inv(Apply(s, step))
  {
    assert HasLanded(s, step.id);
    hide Inv, LandedWithin;
    SyncDirKeeps(s);
    SetPhaseKeeps(DirSynced(s), step.id, Removing(true));
  }

  lemma UnlinkKeeps(s: System, step: Step)
    requires Inv(s) && step.Unlink? && Enabled(s, step, false)
    ensures Inv(Apply(s, step))
  {
    assert HasLanded(s, step.id);
    hide Inv, LandedWithin, SetDir;
    var done := Returned(s.writers[step.id].phase.ok);
    SetPhaseKeeps(s, step.id, done);
    if step.removed {
      DropNameKeeps(SetPhase(s, step.id, done), step.id);
    }
  }

  /** Every step of every interleaving, failures and crashes included, keeps the
      invariant, as long as no temporary name is given out while it is held. */
  lemma StepKeeps(s: System, step: Step)
    requires Inv(s) && Enabled(s, step, false)
    ensures Inv(Apply(s, step))
  {
    hide Inv, Apply, Enabled;
    match step {
      case Create(_, _, _) => CreateKeeps(s, step);
      case Put(_, _) => PutKeeps(s, step);
      case Sync(_) => SyncKeeps(s, step);
      case Rename(_) => RenameKeeps(s, step);
      case SyncDir(_) => SyncDirStepKeeps(s, step);
      case Unlink(_, _) => UnlinkKeeps(s, step);
      case Crash(_, _, _) => CrashKeeps(s, step);
      case _ => MoveKeeps(s, step);
    }
  }

  lemma {:induction false} RunKeeps(s: System, steps: seq<Step>)
    requires Inv(s) && ValidRun(s, steps, false)
    ensures Inv(Exec(s, steps))
  {
    hide Inv, Apply, Enabled;
    if steps != [] {
      RunKeeps(s, steps[..|steps| - 1]);
      StepKeeps(Exec(s, steps[..|steps| - 1]), steps[|steps| - 1]);
    }
  }

  // ----- what the protocol promises -----

  lemma ReadIsLastLanded(s: System)
    requires Inv(s)
    ensures Read(s) == Content(s.initial, s.landed, |s.landed|)
  {
    hide OwnerInv, LandingInv;
    assert Whole(s, s.disk.versions[|s.disk.versions| - 1]);
  }

  /** In every run a reader finds the initial contents or everything one writer
      rendered: the last render to land. */
  lemma TargetIsWhole(s: System, steps: seq<Step>)
    requires Initial(s) && ValidRun(s, steps, false)
    ensures var t := Exec(s, steps);
            if t.landed == [] then Read(t) == t.initial
            else
              var last := t.landed[|t.landed| - 1];
              && Read(t) == Some(last.body)
              && last.id in t.writers && !t.writers[last.id].Building() && t.writers[last.id].body == last.body
  {
    hide Apply, Enabled, Exec, ValidRun;
    InitialInv(s);
    RunKeeps(s, steps);
    hide Initial, OwnerInv;
    var t := Exec(s, steps);
    ReadIsLastLanded(t);
    if t.landed != [] {
      assert WasRendered(t, |t.landed| - 1);
    }
  }

  /** Whatever has been rendered to the end, landed or not, is good. */
  ghost predicate AllGood(s: System, good: Bytes -> bool) {
    && (forall id | id in s.writers && RenderedWhole(s.writers[id].phase) :: good(s.writers[id].body))
    && (forall k: nat | k < |s.landed| :: good(s.landed[k].body))
  }

  predicate RenderedWhole(phase: Phase) { phase.Rendered? || phase.Flushed? || phase.Closed? }

  /** Every render that ends is of something good. */
  ghost predicate FinishGood(s: System, steps: seq<Step>, good: Bytes -> bool) {
    forall i: nat | i < |steps| && steps[i].Finish? :: FinishesGood(Exec(s, steps[..i]), steps[i].id, good)
  }

  ghost predicate FinishesGood(s: System, id: Id, good: Bytes -> bool) {
    id in s.writers && good(s.writers[id].body)
  }

  lemma StepGood(s: System, step: Step, good: Bytes -> bool)
    requires AllGood(s, good) && Enabled(s, step, false)
    requires step.Finish? ==> FinishesGood(s, step.id, good)
    ensures AllGood(Apply(s, step), good)
  {
    hide Held;
    match step {
      case Crash(dir, data, at) =>
        CrashedGood(s, dir, data, s.disk.versions[at].landed, good);
      case _ =>
    }
  }

  lemma CrashedGood(s: System, dir: map<Name, Inode>, data: map<Inode, Bytes>, n: nat, good: Bytes -> bool)
    requires AllGood(s, good)
    ensures n <= |s.landed| ==> AllGood(Crashed(s, dir, data, n), good)
  {
  }

  lemma {:induction false} RunGood(s: System, steps: seq<Step>, good: Bytes -> bool)
    requires Initial(s) && ValidRun(s, steps, false) && FinishGood(s, steps, good)
    ensures AllGood(Exec(s, steps), good)
  {
    hide Apply, Enabled, FinishesGood;
    if steps != [] {
      var front := steps[..|steps| - 1];
      assert forall i: nat | i < |front| :: front[i] == steps[i] && front[..i] == steps[..i];
      RunGood(s, front, good);
      StepGood(Exec(s, front), steps[|steps| - 1], good);
    }
  }

  /** If every render that ends is of something good, so is everything readers ever
      find, apart from what was there at first. */
  lemma TargetIsGood(s: System, steps: seq<Step>, good: Bytes -> bool)
    requires Initial(s) && ValidRun(s, steps, false) && FinishGood(s, steps, good)
    ensures var r := Read(Exec(s, steps)); r == s.initial || (r.Some? && good(r.value))
  {
    hide Exec, ValidRun, FinishGood, Read;
    RunGood(s, steps, good);
    InitialInv(s);
    RunKeeps(s, steps);
    hide Initial, Inv;
    ReadIsLastLanded(Exec(s, steps));
    InitialStays(s, steps);
  }

  lemma {:induction false} InitialStays(s: System, steps: seq<Step>)
    ensures Exec(s, steps).initial == s.initial && Exec(s, steps).target == s.target
  {
    if steps != [] {
      InitialStays(s, steps[..|steps| - 1]);
    }
  }

  /** A call that has returned stays returned. */
  lemma {:induction false} ReturnedStays(s: System, steps: seq<Step>, n: nat, id: Id, ok: bool)
    requires n <= |steps| && ValidRun(s, steps, false) && At(Exec(s, steps[..n]), id, Returned(ok))
    ensures At(Exec(s, steps), id, Returned(ok))
  {
    if n == |steps| {
      assert steps[..n] == steps;
    } else {
      var front := steps[..|steps| - 1];
      assert front[..n] == steps[..n];
      ReturnedStays(s, front, n, id, ok);
      StepFromReturned(Exec(s, front), steps[|steps| - 1], id, ok);
    }
  }

  lemma StepFromReturned(s: System, step: Step, id: Id, ok: bool)
    requires At(s, id, Returned(ok)) && Enabled(s, step, false)
    ensures At(Apply(s, step), id, Returned(ok))
  {
  }

  /** Once Write has returned nil, its rename outlives whatever follows, crashes
      included: readers find its render or that of one that landed after it. */
  lemma ReturnedIsDurable(s: System, steps: seq<Step>, n: nat, id: Id)
    requires Initial(s) && ValidRun(s, steps, false)
    requires n <= |steps| && At(Exec(s, steps[..n]), id, Returned(true))
    ensures var t := Exec(s, steps);
            exists k: nat | k < |t.landed| ::
              t.landed[k].id == id && Read(t) == Some(t.landed[|t.landed| - 1].body)
  {
    hide Exec, ValidRun, Initial, Inv, Read;
    ReturnedStays(s, steps, n, id, true);
    InitialInv(s);
    RunKeeps(s, steps);
    ReturnedHasLanded(Exec(s, steps), id);
  }

  lemma ReturnedHasLanded(t: System, id: Id)
    requires Inv(t) && At(t, id, Returned(true))
    ensures exists k: nat | k < |t.landed| ::
      t.landed[k].id == id && Read(t) == Some(t.landed[|t.landed| - 1].body)
  {
    ReadIsLastLanded(t);
    hide DiskInv, OwnerInv, Read;
    assert HasLanded(t, id);
  }

  // ----- runs, step by step -----

  lemma RunStep(s: System, a: seq<Step>, step: Step, reuse: bool)
    requires ValidRun(s, a, reuse) && Enabled(Exec(s, a), step, reuse)
    ensures ValidRun(s, a + [step], reuse) && Exec(s, a + [step]) == Apply(Exec(s, a), step)
  {
    assert (a + [step])[..|a|] == a;
  }

  /** A writer at work: its file so far, and whether it has been flushed. */
  function Building(s: System, id: Id, tmp: Name, inode: Inode, phase: Phase, body: Bytes): System {
    var flushed := phase == Flushed || phase == Closed;
    SetDir(s.(disk := s.disk.(data := s.disk.data[inode := body],
                              synced := if flushed then s.disk.synced + {inode} else s.disk.synced),
              writers := s.writers[id := Writer(phase, tmp, inode, body)]),
           s.disk.dir[tmp := inode])
  }

  lemma BuildCreate(s: System, id: Id, tmp: Name, inode: Inode)
    ensures Apply(s, Create(id, tmp, inode)) == Building(s, id, tmp, inode, Created, [])
  {
  }

  lemma BuildMove(s: System, id: Id, tmp: Name, inode: Inode, phase: Phase, body: Bytes, step: Step, next: Phase,
                  reuse: bool)
    requires (step == Chmod(id) && next == Moded) || (step == Finish(id) && next == Rendered)
      || (step == Close(id) && phase == Flushed && next == Closed)
    requires next != Closed ==> phase != Flushed && phase != Closed
    requires step.Finish? ==> phase == Moded
    requires step.Chmod? ==> phase == Created
    ensures Enabled(Building(s, id, tmp, inode, phase, body), step, reuse)
    ensures Apply(Building(s, id, tmp, inode, phase, body), step) == Building(s, id, tmp, inode, next, body)
  {
    assert s.writers[id := Writer(phase, tmp, inode, body)][id := Writer(next, tmp, inode, body)]
        == s.writers[id := Writer(next, tmp, inode, body)];
  }

  lemma BuildPut(s: System, id: Id, tmp: Name, inode: Inode, body: Bytes, chunk: Bytes, reuse: bool)
    requires inode !in s.disk.synced
    ensures Enabled(Building(s, id, tmp, inode, Moded, body), Put(id, chunk), reuse)
    ensures Apply(Building(s, id, tmp, inode, Moded, body), Put(id, chunk))
         == Building(s, id, tmp, inode, Moded, body + chunk)
  {
    assert s.writers[id := Writer(Moded, tmp, inode, body)][id := Writer(Moded, tmp, inode, body + chunk)]
        == s.writers[id := Writer(Moded, tmp, inode, body + chunk)];
    assert s.disk.data[inode := body][inode := body + chunk] == s.disk.data[inode := body + chunk];
    assert s.disk.synced - {inode} == s.disk.synced;
  }

  lemma BuildFlush(s: System, id: Id, tmp: Name, inode: Inode, body: Bytes, reuse: bool)
    ensures Enabled(Building(s, id, tmp, inode, Rendered, body), Sync(id), reuse)
    ensures Apply(Building(s, id, tmp, inode, Rendered, body), Sync(id))
         == Building(s, id, tmp, inode, Flushed, body)
  {
    assert s.writers[id := Writer(Rendered, tmp, inode, body)][id := Writer(Flushed, tmp, inode, body)]
        == s.writers[id := Writer(Flushed, tmp, inode, body)];
  }

  /** What CreateTemp and the file system guarantee a new writer. */
  ghost predicate Fresh(s: System, id: Id, tmp: Name, inode: Inode, reuse: bool) {
    Enabled(s, Create(id, tmp, inode), reuse) && inode !in s.disk.synced
  }

  /** A writer's steps up to the rename can follow any run. */
  lemma BuildRun(s: System, run: seq<Step>, id: Id, tmp: Name, inode: Inode, body: Bytes, reuse: bool)
    returns (longer: seq<Step>)
    requires ValidRun(s, run, reuse) && Fresh(Exec(s, run), id, tmp, inode, reuse)
    ensures ValidRun(s, longer, reuse)
    ensures Exec(s, longer) == Building(Exec(s, run), id, tmp, inode, Closed, body)
  {
    var t := Exec(s, run);
    assert Enabled(t, Create(id, tmp, inode), reuse) && inode !in t.disk.synced;
    hide Apply, Exec, ValidRun, Building, Enabled, Fresh;
    longer := ThenRun(s, run, Create(id, tmp, inode), reuse);
    BuildCreate(t, id, tmp, inode);
    BuildMove(t, id, tmp, inode, Created, [], Chmod(id), Moded, reuse);
    longer := ThenRun(s, longer, Chmod(id), reuse);
    BuildPut(t, id, tmp, inode, [], body, reuse);
    assert [] + body == body;
    longer := ThenRun(s, longer, Put(id, body), reuse);
    BuildMove(t, id, tmp, inode, Moded, body, Finish(id), Rendered, reuse);
    longer := ThenRun(s, longer, Finish(id), reuse);
    BuildFlush(t, id, tmp, inode, body, reuse);
    longer := ThenRun(s, longer, Sync(id), reuse);
    BuildMove(t, id, tmp, inode, Flushed, body, Close(id), Closed, reuse);
    longer := ThenRun(s, longer, Close(id), reuse);
  }

  lemma ThenRun(s: System, a: seq<Step>, step: Step, reuse: bool) returns (b: seq<Step>)
    requires ValidRun(s, a, reuse) && Enabled(Exec(s, a), step, reuse)
    ensures b == a + [step] && ValidRun(s, b, reuse) && Exec(s, b) == Apply(Exec(s, a), step)
  {
    b := a + [step];
    RunStep(s, a, step, reuse);
  }

  lemma StartRun(s: System, step: Step, reuse: bool)
    requires Enabled(s, step, reuse)
    ensures ValidRun(s, [step], reuse) && Exec(s, [step]) == Apply(s, step)
  {
    RunStep(s, [], step, reuse);
    assert [] + [step] == [step];
  }

  // ----- when a temporary name may be used again -----

  /** What the documentation promises readers: the initial contents, or everything
      one writer rendered. */
  predicate Kept(s: System) {
    || Read(s) == s.initial
    || exists k: nat | k < |s.landed| :: Read(s) == Some(s.landed[k].body)
  }

  lemma InvKeepsPromise(s: System)
    requires Inv(s)
    ensures Kept(s)
  {
    ReadIsLastLanded(s);
  }

  /** Content longer than anything the target may hold. */
  ghost predicate Longer(chunk: Bytes, initial: Option<Bytes>, landed: seq<Landing>) {
    && (initial.Some? ==> |chunk| > |initial.value|)
    && (forall k: nat | k < |landed| :: |chunk| > |landed[k].body|)
  }

  lemma {:induction false} SomeLonger(initial: Option<Bytes>, landed: seq<Landing>, more: nat) returns (chunk: Bytes)
    ensures Longer(chunk, initial, landed) && |chunk| > more
  {
    if landed == [] {
      chunk := seq(1 + more + if initial.Some? then |initial.value| else 0, _ => 0);
    } else {
      var last := |landed| - 1;
      var least := more + |landed[last].body|;
      chunk := SomeLonger(initial, landed[..last], least);
      forall k: nat | k < |landed| ensures |chunk| > |landed[k].body| {
        assert k < last ==> landed[..last][k] == landed[k];
      }
    }
  }

  /** Writer id is still building under a name whose file is now another writer's,
      which has rendered only a chunk of what it will. */
  ghost predicate Usurped(s: System, t: System, id: Id, other: Id, chunk: Bytes)
    requires id in s.writers
  {
    var w := s.writers[id];
    && id in t.writers && t.writers[id] == w.(phase := t.writers[id].phase) && t.writers[id].Building()
    && id != other && At(t, other, Moded) && t.writers[other].body == chunk && t.writers[other].inode != w.inode
    && w.tmp in t.disk.dir && t.disk.dir[w.tmp] == t.writers[other].inode
    && t.writers[other].inode in t.disk.data && t.disk.data[t.writers[other].inode] == chunk
    && t.landed == s.landed && t.initial == s.initial
  }

  /** A second writer is given the held name and starts rendering. */
  lemma Usurp(s: System, id: Id, c: Step, chunk: Bytes) returns (run: seq<Step>)
    requires Inv(s) && id in s.writers && s.writers[id].Building()
    requires c.Create? && c.tmp == s.writers[id].tmp && Enabled(s, c, true)
    ensures ValidRun(Apply(s, c), run, false)
    ensures Usurped(s, Exec(Apply(s, c), run), id, c.id, chunk)
  {
    assert Owns(s, id);
    var t := Apply(s, c);
    var moded := Apply(t, Chmod(c.id));
    var put := Apply(moded, Put(c.id, chunk));
    assert Enabled(t, Chmod(c.id), false) && Enabled(moded, Put(c.id, chunk), false);
    assert [] + chunk == chunk;
    assert Usurped(s, put, id, c.id, chunk);
    hide Inv, Enabled, Usurped, Apply;
    StartRun(t, Chmod(c.id), false);
    run := ThenRun(t, [Chmod(c.id)], Put(c.id, chunk), false);
  }

  /** How many phases a writer still has to go before it may rename. */
  function ToGo(phase: Phase): nat {
    match phase case Created => 4 case Moded => 3 case Rendered => 2 case Flushed => 1 case _ => 0
  }

  /** The step that takes a building writer on to its next phase. */
  function Onward(w: Writer, id: Id): Step {
    match w.phase
    case Created => Chmod(id)
    case Moded => Finish(id)
    case Rendered => Sync(id)
    case _ => Close(id)
  }

  lemma UsurpedOnward(s: System, t: System, id: Id, other: Id, chunk: Bytes)
    requires id in s.writers && Usurped(s, t, id, other, chunk) && !t.writers[id].phase.Closed?
    ensures var step := Onward(t.writers[id], id);
            var u := Apply(t, step);
            && Enabled(t, step, false) && Usurped(s, u, id, other, chunk)
            && ToGo(u.writers[id].phase) < ToGo(t.writers[id].phase)
  {
  }

  /** The first writer, unaware, goes on until it is ready to rename. */
  lemma {:induction false} Unaware(s: System, t: System, run: seq<Step>, id: Id, other: Id, chunk: Bytes)
    returns (longer: seq<Step>)
    requires id in s.writers && ValidRun(t, run, false) && Usurped(s, Exec(t, run), id, other, chunk)
    ensures ValidRun(t, longer, false) && Usurped(s, Exec(t, longer), id, other, chunk)
    ensures At(Exec(t, longer), id, Closed)
    decreases ToGo(Exec(t, run).writers[id].phase)
  {
    var u := Exec(t, run);
    if u.writers[id].phase.Closed? {
      longer := run;
    } else {
      UsurpedOnward(s, u, id, other, chunk);
      hide Usurped, Apply, Enabled, Exec, ValidRun, ToGo, Onward;
      longer := ThenRun(t, run, Onward(u.writers[id], id), false);
      longer := Unaware(s, t, longer, id, other, chunk);
    }
  }

  lemma UsurpedRenames(s: System, t: System, id: Id, other: Id, chunk: Bytes)
    requires id in s.writers && Usurped(s, t, id, other, chunk) && t.writers[id].phase.Closed?
    requires Longer(chunk, s.initial, s.landed) && |chunk| > |s.writers[id].body|
    ensures Enabled(t, Rename(id), false) && !Kept(Apply(t, Rename(id)))
  {
    var u := Apply(t, Rename(id));
    assert Read(u) == Some(chunk);
    forall k: nat | k < |u.landed| ensures |chunk| > |u.landed[k].body| {
      assert k < |s.landed| ==> u.landed[k] == s.landed[k];
    }
  }

  /** However far the holder has got, giving its name to another can end with
      readers finding an unfinished file. */
  lemma HeldNameTears(s: System, id: Id, c: Step) returns (run: seq<Step>)
    requires Inv(s) && id in s.writers && s.writers[id].Building()
    requires c.Create? && c.tmp == s.writers[id].tmp && Enabled(s, c, true)
    ensures ValidRun(Apply(s, c), run, false) && !Kept(Exec(Apply(s, c), run))
  {
    var chunk := SomeLonger(s.initial, s.landed, |s.writers[id].body|);
    run := Usurp(s, id, c, chunk);
    hide Inv, Enabled, Usurped, Apply, Exec, ValidRun, Kept, Longer;
    var t := Apply(s, c);
    run := Unaware(s, t, run, id, c.id, chunk);
    UsurpedRenames(s, Exec(t, run), id, c.id, chunk);
    run := ThenRun(t, run, Rename(id), false);
  }

  /** When concurrent writers are safe. After any run in which no name was given
      out while held, giving out one more name is safe, whatever follows, if and
      only if it is not held: an earlier writer may have had it, and may even have
      its deferred Remove still to run, but no writer may still be building under
      it. */
  lemma ReuseIsSafeIff(s: System, run: seq<Step>, c: Step)
    requires Initial(s) && ValidRun(s, run, false)
    requires c.Create? && Enabled(Exec(s, run), c, true)
    ensures var t := Apply(Exec(s, run), c);
            !Held(Exec(s, run), c.tmp) <==> forall more | ValidRun(t, more, false) :: Kept(Exec(t, more))
  {
    InitialInv(s);
    RunKeeps(s, run);
    var before := Exec(s, run);
    var t := Apply(before, c);
    if Held(before, c.tmp) {
      var id :| id in before.writers && before.writers[id].Building() && before.writers[id].tmp == c.tmp;
      var more := HeldNameTears(before, id, c);
    } else {
      hide Initial, Inv, Apply, Exec, ValidRun, Held, Kept;
      NotHeld(before, c);
      StepKeeps(before, c);
      forall more | ValidRun(t, more, false) ensures Kept(Exec(t, more)) {
        RunKeeps(t, more);
        InvKeepsPromise(Exec(t, more));
      }
    }
  }

  lemma NotHeld(s: System, c: Step)
    requires c.Create? && Enabled(s, c, true) && !Held(s, c.tmp)
    ensures Enabled(s, c, false)
  {
  }

  const TARGET: Name := "crl.pem"
  const TMP: Name := ".crl.pem.1"

  /** A directory with nothing in it and no writers. */
  const EMPTY: System := System(Disk(map[], map[], {}, [Version(map[], 0)]), map[], TARGET, None, [], 0)

  /** Writer 0 has landed; its deferred Remove has still to run. */
  const LANDED: System :=
    System(Disk(map[TARGET := 0], map[0 := [7]], {0}, [Version(map[TARGET := 0], 1)]),
           map[0 := Writer(Removing(true), TMP, 0, [7])], TARGET, None, [Landing(0, [7])], 1)

  lemma FirstLands()
    ensures var built := Building(EMPTY, 0, TMP, 0, Closed, [7]);
            && Enabled(built, Rename(0), false)
            && Enabled(Apply(built, Rename(0)), SyncDir(0), false)
            && Apply(Apply(built, Rename(0)), SyncDir(0)) == LANDED
  {
    var built := Building(EMPTY, 0, TMP, 0, Closed, [7]);
    var renamed := Apply(built, Rename(0));
    assert renamed.disk.dir == map[TARGET := 0];
    assert renamed.writers == map[0 := Writer(Renamed, TMP, 0, [7])];
    var synced := Apply(renamed, SyncDir(0));
    assert synced.writers == map[0 := Writer(Removing(true), TMP, 0, [7])];
    assert synced.disk.synced == {0};
  }

  /** The Remove takes writer 1's file, so that its name is free and held. */
  lemma RemoveFreesHeldName()
    ensures var built := Building(LANDED, 1, TMP, 1, Closed, [8]);
            var removed := Apply(built, Unlink(0, true));
            && Enabled(built, Unlink(0, true), false)
            && Enabled(removed, Create(2, TMP, 2), true)
            && 1 in removed.writers && removed.writers[1] == Writer(Closed, TMP, 1, [8])
  {
    var built := Building(LANDED, 1, TMP, 1, Closed, [8]);
    var removed := Apply(built, Unlink(0, true));
    assert removed.disk.dir == map[TARGET := 0];
    assert removed.disk.data == map[0 := [7], 1 := [8]];
  }

  lemma StartsFresh()
    ensures Initial(EMPTY) && Fresh(EMPTY, 0, TMP, 0, false) && Fresh(LANDED, 1, TMP, 1, false)
    ensures ValidRun(EMPTY, [], false) && Exec(EMPTY, []) == EMPTY
  {
  }

  /** A held name can come free. Writer 0 lands and has its deferred Remove still to
      run; writer 1 builds under the same name, which is safe; the Remove takes
      writer 1's file. CreateTemp may now give the name to writer 2, and then some
      run ends with readers finding an unfinished file. */
  lemma ReusedNameBreaks() returns (run: seq<Step>, more: seq<Step>)
    ensures Initial(EMPTY) && ValidRun(EMPTY, run, false)
    ensures var s, c := Exec(EMPTY, run), Create(2, TMP, 2);
            && Enabled(s, c, true) && ValidRun(Apply(s, c), more, false) && !Kept(Exec(Apply(s, c), more))
  {
    StartsFresh();
    hide Enabled, Apply, Building, Exec, ValidRun, Fresh, Initial, Kept, EMPTY, LANDED, Inv;
    FirstLands();
    RemoveFreesHeldName();
    run := BuildRun(EMPTY, [], 0, TMP, 0, [7], false);
    run := ThenRun(EMPTY, run, Rename(0), false);
    run := ThenRun(EMPTY, run, SyncDir(0), false);
    run := BuildRun(EMPTY, run, 1, TMP, 1, [8], false);
    run := ThenRun(EMPTY, run, Unlink(0, true), false);
    InitialInv(EMPTY);
    RunKeeps(EMPTY, run);
    more := HeldNameTears(Exec(EMPTY, run), 1, Create(2, TMP, 2));
  }

  // ----- Write itself, as one process runs it -----

  /** The first call of Write's body to fail, if any. */
  datatype Fault = NoFault | AtCreate | AtChmod | AtRender | AtSync | AtClose | AtRename | AtSyncDir
  {
    /** The file was replaced, whatever Write then returns. */
    predicate Replaced() { NoFault? || AtSyncDir? }

    predicate ReachesRename() { NoFault? || AtRename? || AtSyncDir? }
  }

  /** The name CreateTemp makes from the pattern and a random suffix. */
  function TempName(target: Name, suffix: string): Name {
    "." + target + "." + suffix
  }

  /** What a call meets: a suffix that gives a name already there fails in
      CreateTemp. */
  function Met(s: System, suffix: string, fault: Fault): Fault {
    if TempName(s.target, suffix) in s.disk.dir then AtCreate else fault
  }

  function Joined(chunks: seq<Bytes>): Bytes {
    if chunks == [] then [] else Joined(chunks[..|chunks| - 1]) + chunks[|chunks| - 1]
  }

  /** No writer is building, and the writers and files are numbered below n. */
  ghost predicate Idle(s: System, n: nat) {
    && (forall id | id in s.writers :: id < n && !s.writers[id].Building())
    && (forall i | i in s.disk.data || i in s.disk.synced :: i < n)
  }

  /** t differs from s by what writer n has done. */
  predicate Beside(s: System, t: System, n: nat) {
    && t.writers.Keys == s.writers.Keys + {n}
    && (forall id | id in s.writers && id != n :: t.writers[id] == s.writers[id])
    && t.disk.data.Keys == s.disk.data.Keys + {n} && t.disk.synced <= s.disk.synced + {n}
    && t.initial == s.initial && t.target == s.target
  }

  lemma BuildingBeside(s: System, n: nat, tmp: Name, phase: Phase, body: Bytes)
    ensures Beside(s, Building(s, n, tmp, n, phase, body), n)
  {
  }

  lemma PhaseBeside(s: System, t: System, n: nat, phase: Phase)
    requires Beside(s, t, n)
    ensures Beside(s, SetPhase(t, n, phase), n)
  {
  }

  lemma DirBeside(s: System, t: System, n: nat, dir: map<Name, Inode>)
    requires Beside(s, t, n)
    ensures Beside(s, SetDir(t, dir), n) && Beside(s, DirSynced(t), n)
  {
  }

  lemma LandedBeside(s: System, t: System, n: nat, landed: seq<Landing>)
    requires Beside(s, t, n)
    ensures Beside(s, t.(landed := landed), n)
  {
  }

  lemma StepBeside(s: System, t: System, n: nat, step: Step)
    requires Beside(s, t, n)
    requires (step.Fail? || step.Rename? || step.SyncDir? || step.Unlink?) && step.id == n
    ensures Beside(s, Apply(t, step), n)
  {
    hide Beside, SetPhase, SetDir, DirSynced;
    match step {
      case Fail(_) =>
        PhaseBeside(s, t, n, Removing(false));
      case SyncDir(_) =>
        DirBeside(s, t, n, t.disk.dir);
        PhaseBeside(s, DirSynced(t), n, Removing(true));
      case Unlink(_, removed) =>
        if n in t.writers && t.writers[n].phase.Removing? {
          var done := SetPhase(t, n, Returned(t.writers[n].phase.ok));
          PhaseBeside(s, t, n, Returned(t.writers[n].phase.ok));
          DirBeside(s, done, n, t.disk.dir - {t.writers[n].tmp});
        }
      case Rename(_) =>
        if n in t.writers && t.writers[n].tmp in t.disk.dir {
          var w := t.writers[n];
          var renamed := SetPhase(t, n, Renamed);
          PhaseBeside(s, t, n, Renamed);
          var landed := renamed.(landed := t.landed + [Landing(n, w.body)]);
          LandedBeside(s, renamed, n, landed.landed);
          DirBeside(s, landed, n, (t.disk.dir - {w.tmp})[t.target := t.disk.dir[w.tmp]]);
        }
      case _ =>
    }
  }

  lemma BesideIdle(s: System, t: System, n: nat)
    requires Idle(s, n) && Beside(s, t, n) && !t.writers[n].Building()
    ensures Idle(t, n + 1)
  {
    forall id | id in t.writers ensures id < n + 1 && !t.writers[id].Building() {
      assert id in s.writers || id == n;
    }
  }

  lemma NothingYet(s: System, n: nat)
    requires Idle(s, n)
    ensures Idle(s, n + 1) && ValidRun(s, [], false) && Exec(s, []) == s
  {
  }

  lemma NextIsFresh(s: System, n: nat, suffix: string)
    requires Idle(s, n) && TempName(s.target, suffix) !in s.disk.dir
    ensures Fresh(s, n, TempName(s.target, suffix), n, false)
  {
    assert |TempName(s.target, suffix)| > |s.target|;
  }

  /** Failing or finishing and then removing the temporary file leaves the renames
      as they are. */
  lemma CleanUp(s: System, id: Id, removed: bool)
    requires id in s.writers && s.writers[id].phase.Removing?
    ensures Enabled(s, Unlink(id, removed), false)
    ensures var t := Apply(s, Unlink(id, removed));
            && t.landed == s.landed && t.durable == s.durable && t.initial == s.initial
            && At(t, id, Returned(s.writers[id].phase.ok))
            && (removed ==> s.writers[id].tmp !in t.disk.dir)
  {
  }

  /** Started from s, the writer has failed before its rename. */
  predicate Stopped(s: System, t: System, id: Id, tmp: Name) {
    && At(t, id, Removing(false)) && t.writers[id].tmp == tmp
    && t.landed == s.landed && t.durable == s.durable && t.initial == s.initial
  }

  lemma FailBuilding(s: System, id: Id, tmp: Name, phase: Phase, body: Bytes)
    requires phase.Created? || phase.Moded? || phase.Rendered? || phase.Flushed? || phase.Closed?
    ensures var b := Building(s, id, tmp, id, phase, body);
            var t := Apply(b, Fail(id));
            Enabled(b, Fail(id), false) && Stopped(s, t, id, tmp) && Beside(s, t, id)
  {
    BuildingBeside(s, id, tmp, phase, body);
    StepBeside(s, Building(s, id, tmp, id, phase, body), id, Fail(id));
    hide Beside;
  }

  lemma RenameBuilding(s: System, id: Id, tmp: Name, body: Bytes)
    ensures var b := Building(s, id, tmp, id, Closed, body);
            var t := Apply(b, Rename(id));
            && Enabled(b, Rename(id), false) && Beside(s, t, id)
            && At(t, id, Renamed) && t.writers[id].tmp == tmp
            && t.landed == s.landed + [Landing(id, body)] && t.initial == s.initial
  {
    BuildingBeside(s, id, tmp, Closed, body);
    StepBeside(s, Building(s, id, tmp, id, Closed, body), id, Rename(id));
    hide Beside;
  }

  lemma EndRenamed(s: System, id: Id)
    requires At(s, id, Renamed)
    ensures Enabled(s, Fail(id), false) && Enabled(s, SyncDir(id), false)
    ensures var t := Apply(s, Fail(id));
            At(t, id, Removing(false)) && t.writers[id].tmp == s.writers[id].tmp
            && t.landed == s.landed && t.initial == s.initial
    ensures var t := Apply(s, SyncDir(id));
            At(t, id, Removing(true)) && t.writers[id].tmp == s.writers[id].tmp
            && t.landed == s.landed && t.initial == s.initial && t.durable == |t.landed|
  {
  }

  /** What readers find once the call numbered n is over. */
  lemma Concluded(s: System, steps: seq<Step>, n: nat)
    requires Inv(s) && Idle(s, n) && ValidRun(s, steps, false)
    requires Beside(s, Exec(s, steps), n) && !Exec(s, steps).writers[n].Building()
    ensures var t := Exec(s, steps);
            && Inv(t) && Idle(t, n + 1) && t.initial == s.initial && t.target == s.target
            && (t.landed == s.landed ==> Read(t) == Read(s))
            && (t.landed != [] ==> Read(t) == Some(t.landed[|t.landed| - 1].body))
  {
    hide Inv, Idle, Exec, ValidRun, Read;
    RunKeeps(s, steps);
    ReadIsLastLanded(s);
    ReadIsLastLanded(Exec(s, steps));
    BesideIdle(s, Exec(s, steps), n);
  }

  /** A directory in which one process calls Write for one target. */
  class Host {
    var sys: System
    var calls: nat

    ghost predicate Valid()
      reads this
    {
      Inv(sys) && Idle(sys, calls)
    }

    constructor (sys: System, calls: nat)
      requires Inv(sys) && Idle(sys, calls)
      ensures Valid() && this.sys == sys && this.calls == calls
    {
      this.sys, this.calls := sys, calls;
    }

    /** Write, with the suffix CreateTemp settles on, the chunks its render produces,
        the first fault it meets, and whether the deferred Remove takes effect. Each
        assignment to sys is one step of the protocol; steps collects them. */
    method Write(suffix: string, chunks: seq<Bytes>, fault: Fault, removed: bool)
      returns (ok: bool, ghost steps: seq<Step>)
      requires Valid()
      modifies this
      ensures Valid() && ValidRun(old(sys), steps, false) && sys == Exec(old(sys), steps)
      ensures sys.target == old(sys).target && sys.initial == old(sys).initial
      ensures var met := Met(old(sys), suffix, fault);
              && (ok <==> met == NoFault)
              && (met == AtCreate ==> sys == old(sys))
              && (met != AtCreate ==> At(sys, old(calls), Returned(ok)))
              && (met != AtCreate && removed ==> TempName(sys.target, suffix) !in sys.disk.dir)
              && if met.Replaced()
                 then sys.landed == old(sys).landed + [Landing(old(calls), Joined(chunks))]
                      && Read(sys) == Some(Joined(chunks))
                 else sys.landed == old(sys).landed && Read(sys) == Read(old(sys))
      ensures ok ==> sys.durable == |sys.landed|
    {
      hide Apply, Exec, ValidRun, Building, Enabled, Inv, Read, Fresh, Idle, Beside, TempName, Joined;
      ghost var start := sys;
      var tmp, id := TempName(sys.target, suffix), calls;
      NothingYet(start, id);
      calls := calls + 1;
      if fault == AtCreate || tmp in sys.disk.dir {
        return false, [];
      }
      NextIsFresh(start, id, suffix);
      steps := Build(id, tmp, chunks, fault);
      if fault.ReachesRename() {
        steps := Replace(start, steps, id, tmp, Joined(chunks), fault);
      }
      ok, steps := Leave(start, steps, id, tmp, removed);
      Concluded(start, steps, id);
    }

    /** The deferred Remove. */
    method Leave(ghost start: System, ghost run: seq<Step>, id: Id, tmp: Name, removed: bool)
      returns (ok: bool, ghost steps: seq<Step>)
      requires ValidRun(start, run, false) && sys == Exec(start, run) && Beside(start, sys, id)
      requires id in sys.writers && sys.writers[id].phase.Removing? && sys.writers[id].tmp == tmp
      modifies this`sys
      ensures ValidRun(start, steps, false) && sys == Exec(start, steps) && Beside(start, sys, id)
      ensures ok == old(sys).writers[id].phase.ok && At(sys, id, Returned(ok))
      ensures sys.landed == old(sys).landed && sys.durable == old(sys).durable
      ensures removed ==> tmp !in sys.disk.dir
    {
      hide Apply, Exec, ValidRun, Enabled, Beside;
      CleanUp(sys, id, removed);
      StepBeside(start, sys, id, Unlink(id, removed));
      ok := sys.writers[id].phase.ok;
      sys := Apply(sys, Unlink(id, removed));
      steps := ThenRun(start, run, Unlink(id, removed), false);
    }

    /** Rename the finished file onto the target and sync the directory. */
    method Replace(ghost start: System, ghost run: seq<Step>, id: Id, tmp: Name, ghost body: Bytes, fault: Fault)
      returns (ghost steps: seq<Step>)
      requires fault.ReachesRename()
      requires ValidRun(start, run, false) && sys == Exec(start, run)
      requires sys == Building(start, id, tmp, id, Closed, body)
      modifies this`sys
      ensures ValidRun(start, steps, false) && sys == Exec(start, steps)
      ensures At(sys, id, Removing(fault.NoFault?)) && sys.writers[id].tmp == tmp
      ensures Beside(start, sys, id)
      ensures sys.landed == if fault.AtRename? then start.landed else start.landed + [Landing(id, body)]
      ensures fault.NoFault? ==> sys.durable == |sys.landed|
    {
      steps := run;
      hide Apply, Exec, ValidRun, Building, Enabled, Beside;
      if fault.AtRename? {
        FailBuilding(start, id, tmp, Closed, body);
        sys := Apply(sys, Fail(id));
        steps := ThenRun(start, steps, Fail(id), false);
      } else {
        RenameBuilding(start, id, tmp, body);
        sys := Apply(sys, Rename(id));
        steps := ThenRun(start, steps, Rename(id), false);
        EndRenamed(sys, id);
        StepBeside(start, sys, id, Fail(id));
        StepBeside(start, sys, id, SyncDir(id));
        if fault.AtSyncDir? {
          sys := Apply(sys, Fail(id));
          steps := ThenRun(start, steps, Fail(id), false);
        } else {
          sys := Apply(sys, SyncDir(id));
          steps := ThenRun(start, steps, SyncDir(id), false);
        }
      }
    }

    /** Create the temporary file, set its mode, render into it, flush and close it;
        on a fault stop there. */
    method Build(id: Id, tmp: Name, chunks: seq<Bytes>, fault: Fault) returns (ghost steps: seq<Step>)
      requires Fresh(sys, id, tmp, id, false) && fault != AtCreate
      modifies this`sys
      ensures ValidRun(old(sys), steps, false) && sys == Exec(old(sys), steps)
      ensures if fault.ReachesRename()
              then sys == Building(old(sys), id, tmp, id, Closed, Joined(chunks))
              else Stopped(old(sys), sys, id, tmp) && Beside(old(sys), sys, id)
    {
      hide Apply, Exec, ValidRun, Building, Enabled, Beside, Stopped, Joined;
      ghost var start := sys;
      sys := Apply(sys, Create(id, tmp, id));
      StartRun(start, Create(id, tmp, id), false);
      steps := [Create(id, tmp, id)];
      BuildCreate(start, id, tmp, id);
      var phase := Created;
      ghost var body: Bytes := [];
      if fault != AtChmod {
        BuildMove(start, id, tmp, id, Created, [], Chmod(id), Moded, false);
        sys := Apply(sys, Chmod(id));
        steps := ThenRun(start, steps, Chmod(id), false);
        body := Joined(chunks);
        steps := Render(start, steps, id, tmp, chunks);
        phase, steps := Complete(start, steps, id, tmp, body, fault);
      }
      if phase != Closed {
        FailBuilding(start, id, tmp, phase, body);
        sys := Apply(sys, Fail(id));
        steps := ThenRun(start, steps, Fail(id), false);
      }
    }

    /** What the render writes, chunk by chunk. */
    method Render(ghost start: System, ghost run: seq<Step>, id: Id, tmp: Name, chunks: seq<Bytes>)
      returns (ghost steps: seq<Step>)
      requires id !in start.disk.synced && ValidRun(start, run, false) && sys == Exec(start, run)
      requires sys == Building(start, id, tmp, id, Moded, [])
      modifies this`sys
      ensures ValidRun(start, steps, false) && sys == Exec(start, steps)
      ensures sys == Building(start, id, tmp, id, Moded, Joined(chunks))
    {
      hide Apply, Exec, ValidRun, Building, Enabled;
      steps := run;
      for i := 0 to |chunks|
        invariant ValidRun(start, steps, false) && sys == Exec(start, steps)
        invariant sys == Building(start, id, tmp, id, Moded, Joined(chunks[..i]))
      {
        BuildPut(start, id, tmp, id, Joined(chunks[..i]), chunks[i], false);
        assert chunks[..i + 1][..i] == chunks[..i];
        sys := Apply(sys, Put(id, chunks[i]));
        steps := ThenRun(start, steps, Put(id, chunks[i]), false);
      }
      assert chunks[..|chunks|] == chunks;
    }

    /** From the end of a render to the closed file, as far as the fault allows. */
    method Complete(ghost start: System, ghost run: seq<Step>, id: Id, tmp: Name, ghost body: Bytes, fault: Fault)
      returns (phase: Phase, ghost steps: seq<Step>)
      requires ValidRun(start, run, false) && sys == Exec(start, run)
      requires sys == Building(start, id, tmp, id, Moded, body)
      requires fault != AtCreate && fault != AtChmod
      modifies this`sys
      ensures ValidRun(start, steps, false) && sys == Exec(start, steps)
      ensures sys == Building(start, id, tmp, id, phase, body)
      ensures phase == match fault
        case AtRender => Moded case AtSync => Rendered case AtClose => Flushed case _ => Closed
    {
      hide Apply, Exec, ValidRun, Building, Enabled;
      phase, steps := Moded, run;
      if fault == AtRender {
        return;
      }
      BuildMove(start, id, tmp, id, Moded, body, Finish(id), Rendered, false);
      sys := Apply(sys, Finish(id));
      steps := ThenRun(start, steps, Finish(id), false);
      phase := Rendered;
      if fault == AtSync {
        return;
      }
      BuildFlush(start, id, tmp, id, body, false);
      sys := Apply(sys, Sync(id));
      steps := ThenRun(start, steps, Sync(id), false);
      phase := Flushed;
      if fault == AtClose {
        return;
      }
      BuildMove(start, id, tmp, id, Flushed, body, Close(id), Closed, false);
      sys := Apply(sys, Close(id));
      steps := ThenRun(start, steps, Close(id), false);
      phase := Closed;
    }
  }
}
