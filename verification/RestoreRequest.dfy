/** A restore request as a whole: from the decoded archive through the stage to the live tree, across restarts. */
module RestoreRequest {
  import opened ArchivePaths
  import opened DataTree
  import opened Faults
  import opened Snapshot
  import opened Staging
  import opened StagedJournal
  import opened Wrappers

  import CertIndex
  import Restore
  import ScepState

  const DEVICE_KEY: Path := ["auth", "device.key"]
  const DEVICES: Path := ["devices.json"]

  // ----- A tree as components -----

  function RootIn(name: string, roots: seq<Restore.Root>): (r: Option<Restore.Root>)
    ensures r.Some? ==> r.value in roots && RootName(r.value) == name
    ensures r.None? ==> forall q :: q in roots ==> RootName(q) != name
  {
    if roots == [] then None
    else if RootName(roots[0]) == name then Some(roots[0])
    else RootIn(name, roots[1..])
  }

  function Under(files: Files, r: Restore.Root): Files {
    map v | v in files && v != [] && v[0] == RootName(r) :: files[v]
  }

  /** The components of a directory with these files and subdirectories. */
  function ComponentsOf(files: Files, dirs: set<Path>): Restore.Components {
    map r | r in Restore.BACKUP_ROOTS && ([RootName(r)] in dirs || Under(files, r) != map[]) :: Under(files, r)
  }

  /** The file at a path of a data directory. */
  function FileAt(c: Restore.Components, v: Path): Option<Data> {
    var r := if v == [] then None else RootIn(v[0], Restore.BACKUP_ROOTS);
    if r.Some? && r.value in c then At(c[r.value], v) else None
  }

  lemma FileOfComponents(files: Files, dirs: set<Path>, v: Path, stamp: string -> bool)
    requires KnownPath(v, stamp)
    ensures FileAt(ComponentsOf(files, dirs), v) == At(files, v)
  {
    KnownPathHasRoot(v, stamp);
    var q: Restore.Root :| v[0] == RootName(q);
    Restore.RootsAreListedOnce();
    assert q == Restore.BACKUP_ROOTS[Restore.Rank(q)];
    var r := RootIn(v[0], Restore.BACKUP_ROOTS).value;
    RootNamesDiffer(q, r);
    if v in files {
      assert v in Under(files, r);
    }
  }

  // ----- Between staging and activation -----

  /**
    What the handler changes in the stage: an archive without a device key gets the
    instance's, devices.json loses credentials that the key does not open (drop gives the
    new contents then), and passphrases leave the tree if they are kept elsewhere.
    */
  function Adjusted(files: Files, instanceKey: Data, drop: (Data, Data) -> Option<Data>, external: bool): Files {
    var keyed := if DEVICE_KEY in files then files else files[DEVICE_KEY := instanceKey];
    var dropped := if DEVICES in keyed then drop(keyed[DEVICES], keyed[DEVICE_KEY]) else None;
    var cleaned := if dropped.Some? then keyed[DEVICES := dropped.value] else keyed;
    if external then Without(cleaned, CA_SECRETS) else cleaned
  }

  method Adjust(stage: Stage, instanceKey: Data, drop: (Data, Data) -> Option<Data>, external: bool) returns (s: Status)
    requires stage.Valid()
    modifies stage`files, stage`dirs
    ensures stage.Valid()
    ensures s.Done? ==> stage.files == Adjusted(old(stage.files), instanceKey, drop, external)
    ensures stage.healthy && [] in old(stage.dirs) && ["auth"] in old(stage.dirs) ==> s.Done?
  {
    assert DEVICE_KEY[..1] == ["auth"] && DEVICES[..0] == [];
    s := Done;
    if DEVICE_KEY !in stage.files {
      s := stage.Write(DEVICE_KEY, instanceKey);
      if !s.Done? {
        return;
      }
    }
    if DEVICES in stage.files {
      var dropped := drop(stage.files[DEVICES], stage.files[DEVICE_KEY]);
      if dropped.Some? {
        s := stage.Write(DEVICES, dropped.value);
        if !s.Done? {
          return;
        }
      }
    }
    if external {
      s := stage.RemoveTree(CA_SECRETS);
    }
  }

  /** Where a restored tree may differ from its archive. */
  predicate MayDiffer(archive: Files, due: seq<Due>, regenerate: bool, external: bool, v: Path) {
    || MayChange(archive, due, regenerate, v)
    || (v == DEVICE_KEY && DEVICE_KEY !in archive) || (v == DEVICES && DEVICES in archive)
    || (external && [CA_SECRETS] <= v)
  }

  /** What a restore draws or takes from the running instance. */
  datatype Instance = Instance(
    key: Data, cert: Data, certKey: Data, instanceKey: Data, drop: (Data, Data) -> Option<Data>,
    regenerate: bool, external: bool)

  /** live is what a restore makes of the archive, path by path. */
  ghost predicate Restored(archive: Files, live: Restore.Components, own: Instance, stamp: string -> bool)
    requires IndexOf(archive).Some? && JournalOf(archive).Some?
  {
    var st := JournalOf(archive).value;
    && (forall v :: KnownPath(v, stamp) && !MayDiffer(archive, AllDue(st), own.regenerate, own.external, v) ==>
          FileAt(live, v) == At(archive, v))
    && FileAt(live, ["auth", "session.key"]) == Some(own.key)
    && JournalIn(FileAt(live, ["scep.json"])) == Some(if SCEP in archive then Disarm(ScepState.Publish(st)) else st)
    && DevicesRestored(archive, live, own)
    && ProjectionRestored(archive, live, AllDue(st))
    && (own.regenerate ==>
          FileAt(live, ["tls", "server-cert.pem"]) == Some(own.cert)
          && FileAt(live, ["tls", "server-key.pem"]) == Some(own.certKey))
    && (own.external ==> forall v :: [CA_SECRETS] <= v ==> FileAt(live, v).None?)
  }

  /** The archive's device key, or the instance's if it has none, and only credentials which that key opens. */
  ghost predicate DevicesRestored(archive: Files, live: Restore.Components, own: Instance) {
    var key := if DEVICE_KEY in archive then archive[DEVICE_KEY] else own.instanceKey;
    && FileAt(live, ["auth", "device.key"]) == Some(key)
    && (DEVICES in archive ==>
          FileAt(live, ["devices.json"]) ==
          match own.drop(archive[DEVICES], key)
          case Some(d) => Some(d)
          case None => Some(archive[DEVICES]))
  }

  /** Every pending issuance has its record and its PEM file. */
  ghost predicate ProjectionRestored(archive: Files, live: Restore.Components, due: seq<Due>)
    requires IndexOf(archive).Some?
  {
    && IndexIn(FileAt(live, ["index.json"])).Some?
    && IndexGrown(IndexOf(archive).value, IndexIn(FileAt(live, ["index.json"])).value, due)
    && forall d :: d in due && CertIndex.ValidSerial(d.iss.record.serial) ==>
         PemIn(FileAt(live, ["certs", d.iss.record.serial + "-cert.pem"]), due, d.iss.record.serial)
  }

  lemma AdjustedAt(files: Files, own: Instance, v: Path)
    requires v != DEVICE_KEY || DEVICE_KEY in files
    requires v != DEVICES || DEVICES !in files
    requires !(own.external && [CA_SECRETS] <= v)
    ensures At(Adjusted(files, own.instanceKey, own.drop, own.external), v) == At(files, v)
  {
  }

  lemma StagedIsRestored(archive: Files, r: Files, dirs: set<Path>, own: Instance, stamp: string -> bool)
    requires IndexOf(archive).Some? && JournalOf(archive).Some?
    requires Staged(archive, r, own.regenerate, own.key, own.cert, own.certKey)
    ensures Restored(archive, ComponentsOf(Adjusted(r, own.instanceKey, own.drop, own.external), dirs), own, stamp)
  {
    hide ComponentsOf, FileAt, Adjusted, KnownPath, IndexGrown, PemIsDue, AllDue, PemPaths, Disarm, ScepState.Publish;
    hide DevicesRestored, ProjectionRestored;
    var files := Adjusted(r, own.instanceKey, own.drop, own.external);
    var live := ComponentsOf(files, dirs);
    FixedPaths(stamp);
    AdjustedAt(r, own, SESSION_KEY);
    AdjustedAt(r, own, SCEP);
    FileOfComponents(files, dirs, SESSION_KEY, stamp);
    FileOfComponents(files, dirs, SCEP, stamp);
    AdjustedAt(r, own, TLS_CERT);
    AdjustedAt(r, own, TLS_KEY);
    FileOfComponents(files, dirs, TLS_CERT, stamp);
    FileOfComponents(files, dirs, TLS_KEY, stamp);
    var due := AllDue(JournalOf(archive).value);
    forall v | KnownPath(v, stamp) && !MayDiffer(archive, due, own.regenerate, own.external, v)
      ensures FileAt(live, v) == At(archive, v)
    {
      FileOfComponents(files, dirs, v, stamp);
      DeviceFilesStay(archive, r, own);
      AdjustedAt(r, own, v);
    }
    DevicesAreRestored(archive, r, dirs, own, stamp);
    ProjectionIsRestored(archive, r, dirs, own, stamp);
    NoSecretsLeft(r, dirs, own);
  }

  lemma DevicesAreRestored(archive: Files, r: Files, dirs: set<Path>, own: Instance, stamp: string -> bool)
    requires IndexOf(archive).Some? && JournalOf(archive).Some?
    requires Staged(archive, r, own.regenerate, own.key, own.cert, own.certKey)
    ensures DevicesRestored(archive, ComponentsOf(Adjusted(r, own.instanceKey, own.drop, own.external), dirs), own)
  {
    hide ComponentsOf, FileAt, Staged;
    var files := Adjusted(r, own.instanceKey, own.drop, own.external);
    assert KnownPath(DEVICE_KEY, stamp) && KnownPath(DEVICES, stamp);
    FileOfComponents(files, dirs, DEVICE_KEY, stamp);
    FileOfComponents(files, dirs, DEVICES, stamp);
    DeviceFilesStay(archive, r, own);
    assert !([CA_SECRETS] <= DEVICE_KEY) && !([CA_SECRETS] <= DEVICES) && DEVICE_KEY != DEVICES;
  }

  lemma ProjectionIsRestored(archive: Files, r: Files, dirs: set<Path>, own: Instance, stamp: string -> bool)
    requires IndexOf(archive).Some? && JournalOf(archive).Some?
    requires Staged(archive, r, own.regenerate, own.key, own.cert, own.certKey)
    ensures var live := ComponentsOf(Adjusted(r, own.instanceKey, own.drop, own.external), dirs);
            ProjectionRestored(archive, live, AllDue(JournalOf(archive).value))
  {
    hide ComponentsOf, FileAt, Adjusted, KnownPath, IndexGrown, AllDue, Disarm, ScepState.Publish, PemIn, IndexIn;
    var files := Adjusted(r, own.instanceKey, own.drop, own.external);
    var due := AllDue(JournalOf(archive).value);
    FixedPaths(stamp);
    AdjustedAt(r, own, INDEX);
    FileOfComponents(files, dirs, INDEX, stamp);
    forall d | d in due && CertIndex.ValidSerial(d.iss.record.serial)
      ensures PemIn(FileAt(ComponentsOf(files, dirs), PemPath(d.iss.record.serial)), due, d.iss.record.serial)
    {
      var v := PemPath(d.iss.record.serial);
      PemPathIsKnown(d.iss.record.serial, stamp);
      assert v[0] == "certs";
      AdjustedAt(r, own, v);
      FileOfComponents(files, dirs, v, stamp);
      assert PemIsDue(r, due, d.iss.record.serial);
    }
  }

  lemma NoSecretsLeft(r: Files, dirs: set<Path>, own: Instance)
    ensures own.external ==> forall v :: [CA_SECRETS] <= v ==>
              FileAt(ComponentsOf(Adjusted(r, own.instanceKey, own.drop, own.external), dirs), v).None?
  {
    var files := Adjusted(r, own.instanceKey, own.drop, own.external);
    forall v | own.external && [CA_SECRETS] <= v
      ensures FileAt(ComponentsOf(files, dirs), v).None?
    {
      assert v !in files;
    }
  }

  /** No path that the handler changes in the stage. */
  predicate LeftAlone(v: Path) {
    v != DEVICE_KEY && v != DEVICES && !([CA_SECRETS] <= v)
  }

  lemma FixedPaths(stamp: string -> bool)
    ensures KnownPath(SESSION_KEY, stamp) && KnownPath(SCEP, stamp) && KnownPath(INDEX, stamp)
    ensures KnownPath(TLS_CERT, stamp) && KnownPath(TLS_KEY, stamp)
    ensures LeftAlone(SESSION_KEY) && LeftAlone(SCEP) && LeftAlone(INDEX) && LeftAlone(TLS_CERT) && LeftAlone(TLS_KEY)
  {
    assert TLS_CERT[0] == TLS_KEY[0] == "tls" && DEVICE_KEY[0] == "auth";
  }

  lemma DeviceFilesStay(archive: Files, r: Files, own: Instance)
    requires IndexOf(archive).Some? && JournalOf(archive).Some?
    requires Staged(archive, r, own.regenerate, own.key, own.cert, own.certKey)
    ensures At(archive, DEVICE_KEY) == At(r, DEVICE_KEY) && At(archive, DEVICES) == At(r, DEVICES)
  {
    PathsAreDifferent(AllDue(JournalOf(archive).value));
    assert DEVICE_KEY[..1] == ["auth"] && DEVICES[..1] == ["devices.json"];
    assert !MayChange(archive, AllDue(JournalOf(archive).value), own.regenerate, DEVICE_KEY);
    assert !MayChange(archive, AllDue(JournalOf(archive).value), own.regenerate, DEVICES);
  }

  // ----- The request -----

  /**
    A restore request and the restarts after it.  A request that staging or the handler
    refuses leaves the volume alone.  An accepted one ends, at the first recovery that
    succeeds, in the original live data, or, once the committed journal was written,
    in the archive's files except where MayDiffer says.  With working storage exactly the
    archives in order are accepted, and each of them is committed.
    */
  method HandleRestore(
    vol: Restore.Volume, stamp: string -> bool, name: string, parsed: Option<Archive>, size: Data -> nat,
    rest: Files -> bool, usable: string -> bool, own: Instance, restarts: nat)
    returns (accepted: bool, recovered: bool)
    requires !vol.sealed && vol.disk.tx.None?
    modifies vol
    ensures !accepted ==> vol.disk == old(vol.disk)
    ensures accepted ==> InOrder(parsed, size, rest, stamp) && Recoverable(parsed, usable)
    ensures old(vol.healthy) ==>
              && (accepted <==> InOrder(parsed, size, rest, stamp) && Recoverable(parsed, usable))
              && (accepted ==> vol.sealed)
    ensures accepted && recovered ==>
              && vol.disk.tx.None?
              && (!vol.sealed ==> vol.disk.live == old(vol.disk.live))
              && (vol.sealed ==> Restored(Unpack(parsed.value.files), vol.disk.live, own, stamp))
    ensures accepted && restarts > 0 && vol.healthy ==> recovered
  {
    hide Staged, Restored, ComponentsOf, Adjusted, Validates;
    var stage := new Stage(stamp, vol.healthy);
    accepted := stage.StageBackup(parsed, size, rest, usable, own.regenerate, own.key, own.cert, own.certKey);
    recovered := false;
    if !accepted {
      return;
    }
    ghost var staged := stage.files;
    var s := Adjust(stage, own.instanceKey, own.drop, own.external);
    if !s.Done? {
      accepted := false;
      return;
    }
    InOrderParses(parsed, size, rest, stamp);
    StagedIsRestored(Unpack(parsed.value.files), staged, stage.dirs, own, stamp);
    vol.disk := vol.disk.(stages := vol.disk.stages[name := ComponentsOf(stage.files, stage.dirs)]);
    recovered := vol.Lifetime(name, restarts);
  }

  lemma InOrderParses(parsed: Option<Archive>, size: Data -> nat, rest: Files -> bool, stamp: string -> bool)
    requires InOrder(parsed, size, rest, stamp)
    ensures JournalOf(Unpack(parsed.value.files)).Some? && IndexOf(Unpack(parsed.value.files)).Some?
  {
  }

  /** A snapshot that was restored: every collected file is back, except where MayDiffer says. */
  lemma SnapshotIsRestored(
    walked: seq<BackupFile>, recs: seq<CertIndex.Record>, secrets: map<string, Data>, live: Restore.Components,
    own: Instance, stamp: string -> bool, f: BackupFile)
    requires DistinctPaths(walked) && f in walked && BackupPath(f.path, stamp)
    requires forall g :: g in walked ==> !IsSecret(g.path)
    requires var archive := Unpack(walked + SecretFiles(recs, secrets));
             && IndexOf(archive).Some? && JournalOf(archive).Some?
             && Restored(archive, live, own, stamp)
             && !MayDiffer(archive, AllDue(JournalOf(archive).value), own.regenerate, own.external, Parts(f.path))
    ensures FileAt(live, Parts(f.path)) == Some(f.data)
  {
    hide Unpack, SecretFiles, MayDiffer, FileAt, DistinctPaths;
    SnapshotRoundTrip(walked, recs, secrets, Parts(f.path));
  }
}
