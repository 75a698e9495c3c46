/**
  The crash-recoverable swap that activates a restored data tree.  Every mutation of
  the data directory is one primitive of class Volume, whose contract allows the
  primitive to fail before or after its effect and the process to die on either
  side of it.  A crash is an outcome that every caller returns at once, so the
  contracts of ActivateBackup and RecoverRestore speak about every prefix of a run.
  */
module Restore {
  import opened Faults
  import opened Wrappers

  import DataTree

  /** The top-level components that a backup replaces. */
  datatype Root =
    | Cas | Certs | Auth | Tls | Trash | IndexJson | TemplatesJson
    | ScepJson | DevicesJson | DefinitionsJson | CaSecrets

  const BACKUP_ROOTS: seq<Root> :=
    [Cas, Certs, Auth, Tls, Trash, IndexJson, TemplatesJson, ScepJson, DevicesJson, DefinitionsJson, CaSecrets]

  /** The position of a component in the list. */
  function Rank(r: Root): nat {
    match r
    case Cas => 0
    case Certs => 1
    case Auth => 2
    case Tls => 3
    case Trash => 4
    case IndexJson => 5
    case TemplatesJson => 6
    case ScepJson => 7
    case DevicesJson => 8
    case DefinitionsJson => 9
    case CaSecrets => 10
  }

  lemma RootsAreListedOnce()
    ensures forall r: Root :: Rank(r) < |BACKUP_ROOTS| && BACKUP_ROOTS[Rank(r)] == r
    ensures forall i :: 0 <= i < |BACKUP_ROOTS| ==> Rank(BACKUP_ROOTS[i]) == i
  {
  }

  /** What is stored under a component; its own name comes first in each path. */
  type Tree = DataTree.Files

  type Components = map<Root, Tree>

  /** What journal.json holds: something undecodable, or a decoded record. */
  datatype Journal = Undecodable | Journal(version: nat, committed: bool, present: map<Root, bool>)

  /** The .restore directory. */
  datatype Transaction = Transaction(oldDir: Option<Components>, newDir: Option<Components>, journal: Option<Journal>)

  /** The data directory: live components, .restore, and the .backup-stage-* directories. */
  datatype Disk = Disk(live: Components, tx: Option<Transaction>, stages: map<string, Components>)

  function At(m: Components, r: Root): Option<Tree> {
    if r in m then Some(m[r]) else None
  }

  function Set(m: Components, r: Root, t: Option<Tree>): Components {
    if t.Some? then m[r := t.value] else m - {r}
  }

  datatype Place = Live(root: Root) | Old(root: Root) | New(root: Root)

  /** The directory that holds place p, if it exists. */
  function Folder(d: Disk, p: Place): Option<Components> {
    match p
    case Live(_) => Some(d.live)
    case Old(_) => if d.tx.Some? then d.tx.value.oldDir else None
    case New(_) => if d.tx.Some? then d.tx.value.newDir else None
  }

  function Look(d: Disk, p: Place): Option<Tree> {
    match Folder(d, p)
    case None => None
    case Some(m) => At(m, p.root)
  }

  function Store(d: Disk, p: Place, t: Option<Tree>): Disk
    requires Folder(d, p).Some?
  {
    match p
    case Live(r) => d.(live := Set(d.live, r, t))
    case Old(r) => d.(tx := Some(d.tx.value.(oldDir := Some(Set(d.tx.value.oldDir.value, r, t)))))
    case New(r) => d.(tx := Some(d.tx.value.(newDir := Some(Set(d.tx.value.newDir.value, r, t)))))
  }

  predicate Movable(d: Disk, from: Place, to: Place) {
    from != to && Look(d, from).Some? && Folder(d, to).Some?
  }

  function Moved(d: Disk, from: Place, to: Place): Disk
    requires Movable(d, from, to)
  {
    Store(Store(d, from, None), to, Look(d, from))
  }

  function PresentIn(roots: seq<Root>, m: Components): map<Root, bool> {
    map r | r in roots :: r in m
  }

  lemma PresentNone(m: Components)
    ensures PresentIn([], m) == map[]
  {
  }

  lemma PresentPlus(roots: seq<Root>, r: Root, m: Components)
    ensures PresentIn(roots + [r], m) == PresentIn(roots, m)[r := r in m]
  {
  }

  function PresenceOf(m: Components): map<Root, bool> {
    PresentIn(BACKUP_ROOTS, m)
  }

  predicate Supported(j: Journal) {
    j.Journal? && j.version == 1 && forall r | r in BACKUP_ROOTS :: r in j.present
  }

  // ----- States that recovery resolves -----

  /** A prepared transaction: each original component is still live or safe in old. */
  ghost predicate Prepared(d: Disk, original: Components) {
    && d.tx.Some? && d.tx.value.oldDir.Some?
    && d.tx.value.journal == Some(Journal(1, false, PresenceOf(original)))
    && forall r: Root :: RollbackSafe(d, original, r)
  }

  ghost predicate RollbackSafe(d: Disk, original: Components, r: Root) {
    && Look(d, Old(r)) in {None, At(original, r)}
    && (Look(d, Old(r)).None? && r in original ==> At(d.live, r) == At(original, r))
  }

  /** No journal, or a committed one: live data is decided. */
  predicate Decided(d: Disk) {
    match if d.tx.Some? then d.tx.value.journal else None
    case None => true
    case Some(j) => Supported(j) && j.committed
  }

  /** A journal that this version does not understand: undecodable, of another version, or silent about a component. */
  predicate Foreign(d: Disk) {
    && d.tx.Some? && d.tx.value.journal.Some?
    && match d.tx.value.journal.value
       case Undecodable => true
       case Journal(version, _, present) => version != 1 || exists r: Root :: r !in present
  }

  lemma SupportedIsNotForeign(d: Disk)
    requires d.tx.Some? && d.tx.value.journal.Some?
    ensures Supported(d.tx.value.journal.value) <==> !Foreign(d)
  {
    RootsAreListedOnce();
    if Supported(d.tx.value.journal.value) {
      forall r: Root
        ensures r in d.tx.value.journal.value.present
      {
        assert BACKUP_ROOTS[Rank(r)] == r;
      }
    }
  }

  /** Recovery can end in no other live data than goal. */
  ghost predicate Recoverable(d: Disk, goal: Components) {
    Prepared(d, goal) || (Decided(d) && d.live == goal)
  }

  /** Activation in progress: the first i components are swapped, the others untouched. */
  ghost predicate Swapping(d: Disk, original: Components, staged: Components, i: nat) {
    && UncommittedFolders(d, original)
    && forall r: Root ::
         if Rank(r) < i then Swapped(d, original, staged, r) else Untouched(d, original, staged, r)
  }

  /** The same while component i is in old and not yet replaced. */
  ghost predicate Halfway(d: Disk, original: Components, staged: Components, i: nat) {
    && UncommittedFolders(d, original)
    && forall r: Root ::
         if Rank(r) < i then Swapped(d, original, staged, r)
         else if Rank(r) == i then Vacant(d, original, staged, r)
         else Untouched(d, original, staged, r)
  }

  ghost predicate UncommittedFolders(d: Disk, original: Components) {
    && d.tx.Some? && d.tx.value.oldDir.Some? && d.tx.value.newDir.Some?
    && d.tx.value.journal == Some(Journal(1, false, PresenceOf(original)))
  }

  ghost predicate Swapped(d: Disk, original: Components, staged: Components, r: Root) {
    At(d.live, r) == At(staged, r) && Look(d, Old(r)) == At(original, r) && Look(d, New(r)) == None
  }

  ghost predicate Vacant(d: Disk, original: Components, staged: Components, r: Root) {
    At(d.live, r) == None && Look(d, Old(r)) == At(original, r) && Look(d, New(r)) == At(staged, r)
  }

  ghost predicate Untouched(d: Disk, original: Components, staged: Components, r: Root) {
    At(d.live, r) == At(original, r) && Look(d, Old(r)) == None && Look(d, New(r)) == At(staged, r)
  }

  lemma SameComponents(a: Components, b: Components)
    requires forall r: Root :: At(a, r) == At(b, r)
    ensures a == b
  {
    forall r: Root
      ensures r in a <==> r in b
      ensures r in a ==> a[r] == b[r]
    {
      assert At(a, r) == At(b, r);
    }
  }

  lemma HalfwayIsPrepared(d: Disk, original: Components, staged: Components, i: nat)
    requires Swapping(d, original, staged, i) || Halfway(d, original, staged, i)
    ensures Prepared(d, original)
  {
    forall r: Root
      ensures RollbackSafe(d, original, r)
    {
      assert Swapped(d, original, staged, r) || Vacant(d, original, staged, r) || Untouched(d, original, staged, r);
    }
  }

  lemma MoveOut(d: Disk, original: Components, staged: Components, i: nat)
    requires i < |BACKUP_ROOTS| && Swapping(d, original, staged, i)
    ensures var r := BACKUP_ROOTS[i];
            if r in original
            then
              && Movable(d, Live(r), Old(r)) && Look(d, Old(r)).None?
              && Halfway(Moved(d, Live(r), Old(r)), original, staged, i)
            else Halfway(d, original, staged, i)
  {
    RootsAreListedOnce();
    var r := BACKUP_ROOTS[i];
    assert Untouched(d, original, staged, r);
    if r in original {
      MoveOutElsewhere(d, original, staged, i);
    } else {
      assert Vacant(d, original, staged, r);
    }
  }

  lemma MoveOutElsewhere(d: Disk, original: Components, staged: Components, i: nat)
    requires i < |BACKUP_ROOTS| && Swapping(d, original, staged, i)
    requires BACKUP_ROOTS[i] in original && Movable(d, Live(BACKUP_ROOTS[i]), Old(BACKUP_ROOTS[i]))
    ensures Halfway(Moved(d, Live(BACKUP_ROOTS[i]), Old(BACKUP_ROOTS[i])), original, staged, i)
  {
    RootsAreListedOnce();
    var r := BACKUP_ROOTS[i];
    var d' := Moved(d, Live(r), Old(r));
    forall q: Root
      ensures Rank(q) < i ==> Swapped(d', original, staged, q)
      ensures Rank(q) == i ==> Vacant(d', original, staged, q)
      ensures Rank(q) > i ==> Untouched(d', original, staged, q)
    {
      assert BACKUP_ROOTS[Rank(q)] == q;
      assert if Rank(q) < i then Swapped(d, original, staged, q) else Untouched(d, original, staged, q);
    }
  }

  lemma MoveIn(d: Disk, original: Components, staged: Components, i: nat)
    requires i < |BACKUP_ROOTS| && Halfway(d, original, staged, i)
    ensures var r := BACKUP_ROOTS[i];
            Look(d, New(r)) == At(staged, r) &&
            if r in staged
            then
              && Movable(d, New(r), Live(r)) && Look(d, Live(r)).None?
              && Swapping(Moved(d, New(r), Live(r)), original, staged, i + 1)
            else Swapping(d, original, staged, i + 1)
  {
    RootsAreListedOnce();
    var r := BACKUP_ROOTS[i];
    assert Vacant(d, original, staged, r);
    if r in staged {
      MoveInElsewhere(d, original, staged, i);
    } else {
      assert Swapped(d, original, staged, r);
    }
  }

  lemma MoveInElsewhere(d: Disk, original: Components, staged: Components, i: nat)
    requires i < |BACKUP_ROOTS| && Halfway(d, original, staged, i)
    requires BACKUP_ROOTS[i] in staged && Movable(d, New(BACKUP_ROOTS[i]), Live(BACKUP_ROOTS[i]))
    ensures Swapping(Moved(d, New(BACKUP_ROOTS[i]), Live(BACKUP_ROOTS[i])), original, staged, i + 1)
  {
    RootsAreListedOnce();
    var r := BACKUP_ROOTS[i];
    var d' := Moved(d, New(r), Live(r));
    forall q: Root
      ensures Rank(q) < i + 1 ==> Swapped(d', original, staged, q)
      ensures Rank(q) >= i + 1 ==> Untouched(d', original, staged, q)
    {
      assert BACKUP_ROOTS[Rank(q)] == q;
      assert if Rank(q) < i then Swapped(d, original, staged, q)
             else if Rank(q) == i then Vacant(d, original, staged, q)
             else Untouched(d, original, staged, q);
    }
  }

  /** Once every component is swapped, live data is the stage. */
  lemma SwappedAll(d: Disk, original: Components, staged: Components)
    requires Swapping(d, original, staged, |BACKUP_ROOTS|)
    ensures d.live == staged
  {
    RootsAreListedOnce();
    forall r: Root
      ensures At(d.live, r) == At(staged, r)
    {
      assert Rank(r) < |BACKUP_ROOTS|;
      assert Swapped(d, original, staged, r);
    }
    SameComponents(d.live, staged);
  }

  /** A component that rollback has dealt with. */
  ghost predicate Restored(d: Disk, goal: Components, r: Root) {
    At(d.live, r) == At(goal, r) && Look(d, Old(r)).None?
  }

  lemma PreparedFacts(d: Disk, original: Components, r: Root)
    requires Prepared(d, original)
    ensures RollbackSafe(d, original, r) && Folder(d, Old(r)).Some?
  {
  }

  /** While old still holds a component, or it never existed, its live place is free for the taking. */
  lemma LiveIsExpendable(d: Disk, d': Disk, original: Components, r: Root)
    requires Prepared(d, original) && d' == d.(live := d'.live)
    requires forall q: Root :: q != r ==> At(d'.live, q) == At(d.live, q)
    requires Look(d, Old(r)).Some? || r !in original
    ensures Prepared(d', original)
  {
    forall q: Root
      ensures RollbackSafe(d', original, q)
    {
      assert RollbackSafe(d, original, q);
    }
  }

  lemma PuttingBackIsSafe(d: Disk, original: Components, r: Root)
    requires Prepared(d, original) && Movable(d, Old(r), Live(r))
    ensures Prepared(Moved(d, Old(r), Live(r)), original)
    ensures At(Moved(d, Old(r), Live(r)).live, r) == At(original, r)
  {
    var d' := Moved(d, Old(r), Live(r));
    forall q: Root
      ensures RollbackSafe(d', original, q)
    {
      assert RollbackSafe(d, original, q) && RollbackSafe(d, original, r);
    }
    assert RollbackSafe(d, original, r);
  }

  // ----- The storage -----

  class Volume {
    var disk: Disk
    var healthy: bool        // storage that neither fails nor loses the process
    ghost var sealed: bool   // a journal with Committed set has been written

    constructor (disk: Disk)
      ensures this.disk == disk && !sealed
    {
      this.disk, healthy, sealed := disk, true, false;
    }

    method Sync() returns (s: Status)
      ensures healthy ==> s.Done?
    {
      var effect;
      s, effect := Fate(healthy);
    }

    method Exists(p: Place) returns (s: Status, present: bool)
      ensures s.Done? ==> present == Look(disk, p).Some?
      ensures healthy ==> s.Done?
    {
      var effect;
      s, effect := Fate(healthy);
      present := Look(disk, p).Some?;
    }

    method MakeTransaction() returns (s: Status)
      modifies this`disk
      ensures disk == old(disk) || (old(disk).tx.None? && disk == old(disk).(tx := Some(Transaction(None, None, None))))
      ensures s.Done? ==> old(disk).tx.None? && disk.tx.Some?
      ensures healthy && old(disk).tx.None? ==> s.Done?
    {
      if disk.tx.Some? {
        return Failed;
      }
      var effect;
      s, effect := Fate(healthy);
      if effect {
        disk := disk.(tx := Some(Transaction(None, None, None)));
      }
    }

    method MakeOld() returns (s: Status)
      requires disk.tx.Some? && disk.tx.value.oldDir.None?
      modifies this`disk
      ensures disk == old(disk) || disk == old(disk).(tx := Some(old(disk).tx.value.(oldDir := Some(map[]))))
      ensures s.Done? ==> disk.tx.value.oldDir.Some?
      ensures healthy ==> s.Done?
    {
      var effect;
      s, effect := Fate(healthy);
      if effect {
        disk := disk.(tx := Some(disk.tx.value.(oldDir := Some(map[]))));
      }
    }

    /** durableRename(stage, .restore/new). */
    method AdoptStage(stage: string) returns (s: Status)
      requires disk.tx.Some? && disk.tx.value.newDir.None?
      modifies this`disk
      ensures disk == old(disk)
           || (stage in old(disk).stages
               && disk == old(disk).(tx := Some(old(disk).tx.value.(newDir := Some(old(disk).stages[stage]))),
                                     stages := old(disk).stages - {stage}))
      ensures s.Done? ==> disk.tx.value.newDir.Some?
      ensures healthy && stage in old(disk).stages ==> s.Done?
    {
      if stage !in disk.stages {
        return Failed;
      }
      var effect;
      s, effect := Fate(healthy);
      if effect {
        disk := disk.(tx := Some(disk.tx.value.(newDir := Some(disk.stages[stage]))), stages := disk.stages - {stage});
      }
      if s.Done? {
        s := Sync();
      }
    }

    /** rename followed by two directory syncs; replacing an existing target may be refused. */
    method DurableRename(from: Place, to: Place) returns (s: Status)
      requires from != to
      modifies this`disk
      ensures disk == old(disk) || (Movable(old(disk), from, to) && disk == Moved(old(disk), from, to))
      ensures s.Done? ==> Movable(old(disk), from, to) && disk == Moved(old(disk), from, to)
      ensures healthy && Movable(old(disk), from, to) && Look(old(disk), to).None? ==> s.Done?
    {
      if !Movable(disk, from, to) {
        return Failed;
      }
      var refused := Look(disk, to).Some?;
      if refused {
        refused := *;
      }
      if refused {
        return Failed;
      }
      var effect;
      s, effect := Fate(healthy);
      if effect {
        disk := Moved(disk, from, to);
      }
      if s.Done? {
        s := Sync();
      }
      if s.Done? {
        s := Sync();
      }
    }

    /** durableWrite of journal.json: atomic replacement, then a directory sync. */
    method ReplaceJournal(j: Journal) returns (s: Status)
      requires disk.tx.Some?
      modifies this`disk, this`sealed
      ensures || (disk == old(disk) && sealed == old(sealed))
              || (disk == old(disk).(tx := Some(old(disk).tx.value.(journal := Some(j))))
                  && sealed == (old(sealed) || (j.Journal? && j.committed)))
      ensures s.Done? ==> disk.tx.value.journal == Some(j) && sealed == (old(sealed) || (j.Journal? && j.committed))
      ensures healthy ==> s.Done?
    {
      var effect;
      s, effect := Fate(healthy);
      if effect {
        disk := disk.(tx := Some(disk.tx.value.(journal := Some(j))));
        sealed := sealed || (j.Journal? && j.committed);
      }
      if s.Done? {
        s := Sync();
      }
    }

    method ReadJournal() returns (s: Status, j: Option<Journal>)
      ensures s.Done? ==> j == if disk.tx.Some? then disk.tx.value.journal else None
      ensures healthy ==> s.Done?
    {
      var effect;
      s, effect := Fate(healthy);
      j := if disk.tx.Some? then disk.tx.value.journal else None;
    }

    method RemoveJournal() returns (s: Status)
      requires disk.tx.Some?
      modifies this`disk
      ensures disk == old(disk) || disk == old(disk).(tx := Some(old(disk).tx.value.(journal := None)))
      ensures s.Done? ==> disk.tx.value.journal == None
      ensures healthy ==> s.Done?
    {
      var effect;
      s, effect := Fate(healthy);
      if effect {
        disk := disk.(tx := Some(disk.tx.value.(journal := None)));
      }
    }

    /** RemoveAll(.restore): when it stops midway, anything may be left except a new journal. */
    method RemoveTransaction() returns (s: Status)
      modifies this`disk
      ensures disk.live == old(disk).live && disk.stages == old(disk).stages
      ensures disk.tx.Some? ==> old(disk).tx.Some? && disk.tx.value.journal in {None, old(disk).tx.value.journal}
      ensures s.Done? ==> disk.tx.None?
      ensures healthy ==> s.Done?
    {
      var effect;
      s, effect := Fate(healthy);
      if s.Done? || effect {
        disk := disk.(tx := None);
      } else if disk.tx.Some? {
        var left: Transaction := *;
        var journal := if left.journal.Some? then disk.tx.value.journal else None;
        disk := disk.(tx := Some(left.(journal := journal)));
      }
    }

    /** RemoveAll of one live component: when it stops midway, anything may be left of it. */
    method RemoveLive(r: Root) returns (s: Status)
      modifies this`disk
      ensures disk == old(disk).(live := disk.live)
      ensures forall q: Root :: q != r ==> At(disk.live, q) == At(old(disk).live, q)
      ensures s.Done? ==> r !in disk.live
      ensures healthy ==> s.Done?
    {
      var effect;
      s, effect := Fate(healthy);
      var left: Option<Tree> := *;
      disk := disk.(live := Set(disk.live, r, if s.Done? then None else left));
    }

    /** Abandoned staging directories, one after the other. */
    method RemoveStages() returns (s: Status)
      modifies this`disk
      ensures disk == old(disk).(stages := disk.stages)
      ensures s.Done? ==> disk.stages == map[]
      ensures healthy ==> s.Done?
    {
      s := Sync(); // reading the directory
      if !s.Done? {
        return;
      }
      var entries := disk.stages.Keys;
      while entries != {}
        invariant disk == old(disk).(stages := disk.stages) && disk.stages.Keys <= entries
      {
        var e :| e in entries;
        var effect;
        s, effect := Fate(healthy);
        if effect {
          disk := disk.(stages := disk.stages - {e});
        } else if e in disk.stages {
          var left: Components := *;
          disk := disk.(stages := disk.stages[e := left]);
        }
        if !s.Done? {
          return;
        }
        entries := entries - {e};
      }
      s := Sync();
    }

    // ----- Recovery -----

    /**
      Startup recovery, also run inside a failed activation.  Wherever it stops, the same
      goal stays the only one that a later recovery can reach; when it returns without
      an error, live data is that goal and nothing of the transaction is left.
      */
    method RecoverRestore(ghost goal: Components) returns (s: Status)
      requires Recoverable(disk, goal) || Foreign(disk)
      modifies this`disk
      ensures Recoverable(old(disk), goal) ==> Recoverable(disk, goal)
      ensures s.Done? ==> disk == Disk(goal, None, map[])
      ensures Decided(old(disk)) ==> Decided(disk) && disk.live == old(disk).live
      ensures healthy && Recoverable(old(disk), goal) ==> s.Done?
      ensures Foreign(old(disk)) ==> !s.Done? && disk == old(disk)
    {
      var journal;
      s, journal := ReadJournal();
      if !s.Done? {
        return;
      }
      if journal.None? {
        s := RemoveTransaction();
        if !s.Done? {
          return;
        }
      } else {
        var j := journal.value;
        SupportedIsNotForeign(disk);
        if !Supported(j) {
          return Failed;
        }
        if !j.committed {
          s := RollBack(j, goal);
          if !s.Done? {
            return;
          }
        }
        s := Sync();
        if !s.Done? {
          return;
        }
        s := RemoveJournal();
        if !s.Done? {
          return;
        }
        s := Sync();
        if !s.Done? {
          return;
        }
        s := RemoveTransaction();
        if !s.Done? {
          return;
        }
      }
      s := RemoveStages();
    }

    /** The uncommitted branch: every component in old, or absent originally, is put back. */
    method RollBack(j: Journal, ghost goal: Components) returns (s: Status)
      requires Prepared(disk, goal) && disk.tx.value.journal == Some(j)
      modifies this`disk
      ensures Prepared(disk, goal)
      ensures s.Done? ==> disk.live == goal
      ensures healthy ==> s.Done?
    {
      RootsAreListedOnce();
      s := Done;
      for i := 0 to |BACKUP_ROOTS|
        invariant Prepared(disk, goal) && s.Done?
        invariant forall k :: 0 <= k < i ==> Restored(disk, goal, BACKUP_ROOTS[k])
      {
        s := RollBackOne(BACKUP_ROOTS[i], j.present[BACKUP_ROOTS[i]], goal);
        if !s.Done? {
          return;
        }
      }
      forall r: Root
        ensures At(disk.live, r) == At(goal, r)
      {
        assert Restored(disk, goal, BACKUP_ROOTS[Rank(r)]);
      }
      SameComponents(disk.live, goal);
    }

    method RollBackOne(r: Root, wasPresent: bool, ghost goal: Components) returns (s: Status)
      requires Prepared(disk, goal) && wasPresent == (r in goal)
      modifies this`disk
      ensures Prepared(disk, goal)
      ensures forall q: Root :: q != r && Restored(old(disk), goal, q) ==> Restored(disk, goal, q)
      ensures s.Done? ==> Restored(disk, goal, r)
      ensures healthy ==> s.Done?
    {
      hide Prepared;
      PreparedFacts(disk, goal, r);
      var present;
      s, present := Exists(Old(r));
      if !s.Done? {
        return;
      }
      if present || !wasPresent {
        ghost var before := disk;
        s := RemoveLive(r);
        LiveIsExpendable(before, disk, goal, r);
        if !s.Done? {
          return;
        }
        s := Sync();
        if !s.Done? {
          return;
        }
        if present {
          PuttingBackIsSafe(disk, goal, r);
          s := DurableRename(Old(r), Live(r));
        }
      }
    }

    // ----- Activation -----

    /**
      Replaces live data by the stage.  Whatever fails, and wherever the process dies,
      recovery can only end in the original data, or, once the committed journal has
      been written, only in the staged data.
      */
    method ActivateBackup(stage: string) returns (s: Status)
      requires !sealed
      modifies this`disk, this`sealed
      ensures old(disk).tx.Some? ==> !s.Done? && disk == old(disk) && !sealed
      ensures stage !in old(disk).stages ==> !s.Done? && !sealed
      ensures old(disk).tx.None? ==>
                Recoverable(disk, if sealed then old(disk).stages[stage] else old(disk).live)
      ensures s.Done? ==> sealed && disk.live == old(disk).stages[stage]
      ensures s.Failed? && disk.tx.None? ==> disk.live == old(disk).live
      ensures healthy && old(disk).tx.None? && stage in old(disk).stages ==> s.Done?
    {
      ghost var original := disk.live;
      ghost var staged := if stage in disk.stages then disk.stages[stage] else map[];
      s := MakeTransaction();
      if !s.Done? {
        return;
      }
      var j;
      s, j := Prepare(stage);
      if !s.Done? {
        if s.Failed? {
          var cleanup := RemoveTransaction(); // deferred while not prepared
          s := if cleanup.Crashed? then Crashed else Failed;
        }
        return;
      }
      s := ReplaceJournal(j);
      if !s.Done? {
        return;
      }
      s := SwapAll(j, original, staged);
      if s.Failed? {
        var recovered := RecoverRestore(original);
        s := if recovered.Crashed? then Crashed else Failed;
      }
      if !s.Done? {
        return;
      }
      s := ReplaceJournal(j.(committed := true));
      if !s.Done? {
        return;
      }
      var cleanup := RecoverRestore(staged);
      s := if cleanup.Crashed? then Crashed else Done;
    }

    /** Everything before the first journal: .restore/old, the adopted stage, and what was present. */
    method Prepare(stage: string) returns (s: Status, j: Journal)
      requires disk.tx == Some(Transaction(None, None, None))
      modifies this`disk
      ensures disk.live == old(disk).live
      ensures disk.tx.Some? && disk.tx.value.journal.None?
      ensures s.Done? ==>
                && stage in old(disk).stages
                && disk.tx == Some(Transaction(Some(map[]), Some(old(disk).stages[stage]), None))
                && j == Journal(1, false, PresenceOf(disk.live))
      ensures healthy && stage in old(disk).stages ==> s.Done?
    {
      j := Undecodable;
      s := MakeOld();
      if !s.Done? {
        return;
      }
      s := AdoptStage(stage);
      if !s.Done? {
        return;
      }
      var present;
      s, present := RecordPresence();
      if !s.Done? {
        return;
      }
      j := Journal(1, false, present);
      s := Sync();
      if !s.Done? {
        return;
      }
      s := Sync();
    }

    method RecordPresence() returns (s: Status, present: map<Root, bool>)
      ensures s.Done? ==> present == PresenceOf(disk.live)
      ensures healthy ==> s.Done?
    {
      hide PresentIn;
      PresentNone(disk.live);
      present, s := map[], Done;
      for i := 0 to |BACKUP_ROOTS|
        invariant present == PresentIn(BACKUP_ROOTS[..i], disk.live)
        invariant s.Done?
      {
        var found;
        s, found := Exists(Live(BACKUP_ROOTS[i]));
        if !s.Done? {
          return;
        }
        assert BACKUP_ROOTS[..i + 1] == BACKUP_ROOTS[..i] + [BACKUP_ROOTS[i]];
        PresentPlus(BACKUP_ROOTS[..i], BACKUP_ROOTS[i], disk.live);
        present := present[BACKUP_ROOTS[i] := found];
      }
      assert BACKUP_ROOTS[..|BACKUP_ROOTS|] == BACKUP_ROOTS;
    }

    method SwapAll(j: Journal, ghost original: Components, ghost staged: Components) returns (s: Status)
      requires Swapping(disk, original, staged, 0) && disk.tx.value.journal == Some(j)
      modifies this`disk
      ensures Prepared(disk, original)
      ensures s.Done? ==> disk.live == staged && disk.tx.value.journal == Some(j)
      ensures healthy ==> s.Done?
    {
      s := Done;
      for i := 0 to |BACKUP_ROOTS|
        invariant Swapping(disk, original, staged, i) && disk.tx.value.journal == Some(j) && s.Done?
      {
        s := SwapOne(j.present[BACKUP_ROOTS[i]], i, original, staged);
        if !s.Done? {
          return;
        }
      }
      HalfwayIsPrepared(disk, original, staged, |BACKUP_ROOTS|);
      SwappedAll(disk, original, staged);
    }

    method SwapOne(wasPresent: bool, i: nat, ghost original: Components, ghost staged: Components) returns (s: Status)
      requires i < |BACKUP_ROOTS| && wasPresent == (BACKUP_ROOTS[i] in original)
      requires Swapping(disk, original, staged, i)
      modifies this`disk
      ensures Prepared(disk, original)
      ensures disk.tx.Some? && disk.tx.value.journal == old(disk).tx.value.journal
      ensures s.Done? ==> Swapping(disk, original, staged, i + 1)
      ensures healthy ==> s.Done?
    {
      hide Swapping, Halfway, Prepared;
      var r := BACKUP_ROOTS[i];
      HalfwayIsPrepared(disk, original, staged, i);
      MoveOut(disk, original, staged, i);
      if wasPresent {
        s := DurableRename(Live(r), Old(r));
        if disk != old(disk) {
          HalfwayIsPrepared(disk, original, staged, i);
        }
        if !s.Done? {
          return;
        }
      }
      MoveIn(disk, original, staged, i);
      var present;
      s, present := Exists(New(r));
      if !s.Done? {
        return;
      }
      ghost var vacant := disk;
      if present {
        s := DurableRename(New(r), Live(r));
      }
      if disk != vacant || !present {
        HalfwayIsPrepared(disk, original, staged, i + 1);
      }
    }

    // ----- The serving decision and whole lifetimes -----

    /**
      What the restore handler does under the exclusive barrier; stopped blocks serving until
      restart.  canLook says that a lookup of .restore after a failure works.
      */
    method RestoreExclusive(stage: string, canLook: bool) returns (s: Status, stopped: bool)
      requires !sealed && disk.tx.None? && stage in disk.stages
      modifies this`disk, this`sealed
      ensures Recoverable(disk, if sealed then old(disk).stages[stage] else old(disk).live)
      ensures s.Done? ==> stopped && sealed && disk.live == old(disk).stages[stage]
      ensures healthy ==> s.Done?
      ensures s.Failed? && !stopped ==> disk.tx.None? && disk.live == old(disk).live
      ensures s.Failed? && canLook ==> (stopped <==> disk.tx.Some?)
    {
      s := ActivateBackup(stage);
      stopped := s.Done?;
      if s.Failed? {
        var look, effect := Fate(canLook);
        stopped := disk.tx.Some? || !look.Done?;
        s := if look.Crashed? then Crashed else Failed;
      }
    }

    /**
      A restore request and the restarts after it, each of which recovers before opening
      the store; storage may be repaired or break at any restart.  The first recovery
      that returns without an error leaves all of the original data or all of the stage,
      the stage exactly when the committed journal was written, and no .restore.
      */
    method Lifetime(stage: string, restarts: nat) returns (recovered: bool)
      requires !sealed && disk.tx.None? && stage in disk.stages
      modifies this
      ensures Recoverable(disk, if sealed then old(disk).stages[stage] else old(disk).live)
      ensures recovered ==>
                disk == Disk(if sealed then old(disk).stages[stage] else old(disk).live, None, map[])
      ensures old(healthy) ==> sealed
      ensures restarts > 0 && healthy ==> recovered
    {
      ghost var original, staged := disk.live, disk.stages[stage];
      var canLook: bool := *;
      var s, stopped := RestoreExclusive(stage, canLook);
      recovered := false;
      var k := 0;
      while k < restarts && !recovered
        invariant k <= restarts
        invariant old(healthy) ==> sealed
        invariant Recoverable(disk, if sealed then staged else original)
        invariant recovered ==> disk == Disk(if sealed then staged else original, None, map[])
        invariant k > 0 && healthy ==> recovered
      {
        healthy := *;
        s := RecoverRestore(if sealed then staged else original);
        recovered := s.Done?;
        k := k + 1;
      }
    }
  }
}
