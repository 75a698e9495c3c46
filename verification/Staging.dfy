/**
  Staging an opened archive: writing its files into a fresh directory tree, and the
  changes made to that tree before it can be activated.
  */
module Staging {
  import opened ArchivePaths
  import opened CertIndex
  import opened DataTree
  import opened Faults
  import opened ScepState
  import opened StagedJournal
  import opened Strings
  import opened Wrappers

  // ----- Archives and trees -----

  datatype BackupFile = BackupFile(path: string, data: Data)

  datatype Archive = Archive(format: int, application: string, dated: bool, files: seq<BackupFile>)

  const COUNT_LIMIT: int := 10000
  const FILE_LIMIT: int := 0x100_0000
  const TOTAL_LIMIT: int := 0x300_0000

  const INDEX: Path := ["index.json"]
  const SCEP: Path := ["scep.json"]
  const SESSION_KEY: Path := ["auth", "session.key"]
  const TLS_CERT: Path := ["tls", "server-cert.pem"]
  const TLS_KEY: Path := ["tls", "server-key.pem"]

  function PemPath(serial: string): Path {
    ["certs", serial + "-cert.pem"]
  }

  predicate ManifestOk(a: Archive) {
    && a.format == 1 && a.application != "" && |a.application| <= 128 && a.dated
    && |a.files| <= COUNT_LIMIT
  }

  function Total(files: seq<BackupFile>, size: Data -> nat): nat {
    if files == [] then 0 else Total(files[..|files| - 1], size) + size(files[|files| - 1].data)
  }

  function PathsOf(files: seq<BackupFile>): set<string> {
    set f | f in files :: f.path
  }

  ghost predicate DistinctPaths(files: seq<BackupFile>) {
    forall i, j :: 0 <= i < j < |files| ==> files[i].path != files[j].path
  }

  ghost predicate FilesOk(files: seq<BackupFile>, size: Data -> nat, stamp: string -> bool) {
    && (forall i :: 0 <= i < |files| ==> FileOk(files[i], size, stamp))
    && DistinctPaths(files) && Total(files, size) <= TOTAL_LIMIT
  }

  predicate FileOk(f: BackupFile, size: Data -> nat, stamp: string -> bool) {
    BackupPath(f.path, stamp) && size(f.data) <= FILE_LIMIT
  }

  /** The tree that holds exactly the files of an archive. */
  function Unpack(files: seq<BackupFile>): Files {
    if files == [] then map[]
    else
      var last := files[|files| - 1];
      Unpack(files[..|files| - 1])[Parts(last.path) := last.data]
  }

  lemma {:induction false} UnpackedPaths(files: seq<BackupFile>, v: Path)
    ensures v in Unpack(files) <==> exists f :: f in files && Parts(f.path) == v
  {
    if files == [] {
    } else {
      var init, last := files[..|files| - 1], files[|files| - 1];
      assert files == init + [last];
      UnpackedPaths(init, v);
    }
  }

  /** Different names never collide, so nothing in an archive overwrites anything else in it. */
  lemma {:induction false} UnpackKeepsEveryFile(files: seq<BackupFile>, k: nat)
    requires DistinctPaths(files) && k < |files|
    ensures At(Unpack(files), Parts(files[k].path)) == Some(files[k].data)
  {
    var init, last := files[..|files| - 1], files[|files| - 1];
    if k < |init| {
      UnpackKeepsEveryFile(init, k);
      JoinOfSplit(files[k].path, '/');
      JoinOfSplit(last.path, '/');
    }
  }

  // ----- Recovery inside the stage -----

  function IndexOf(files: Files): Option<seq<Record>> {
    IndexIn(At(files, INDEX))
  }

  /** An absent index is an empty one. */
  function IndexIn(d: Option<Data>): Option<seq<Record>> {
    match d
    case None => Some([])
    case Some(IndexText(recs)) => Some(recs)
    case Some(_) => None
  }

  function JournalOf(files: Files): Option<State> {
    JournalIn(At(files, SCEP))
  }

  /** An absent journal is an empty one. */
  function JournalIn(d: Option<Data>): Option<State> {
    match d
    case None => Some(State("", [], []))
    case Some(JournalText(st)) => Some(st)
    case Some(_) => None
  }

  /** The projection of one committed issuance: its PEM, and its record unless the index has it. */
  function Project(files: Files, iss: Issuance): (r: Files)
    requires IndexOf(files).Some?
    ensures IndexOf(r).Some?
  {
    var recs := IndexOf(files).value;
    var withPem := files[PemPath(iss.record.serial) := PemText(iss.der)];
    if iss.record.serial in Serials(recs) then withPem else withPem[INDEX := IndexText(recs + [iss.record])]
  }

  datatype Due = Due(ca: string, iss: Issuance)

  function DueOf(ca: string, iss: Issuance): seq<Due> {
    if iss.published then [] else [Due(ca, iss)]
  }

  function DueDevices(cs: seq<Challenge>): seq<Due> {
    if cs == [] then []
    else
      var c := cs[|cs| - 1];
      DueDevices(cs[..|cs| - 1]) + if c.issue.Some? then DueOf(c.ca, c.issue.value) else []
  }

  function DueIssuances(ca: string, issued: seq<SharedIssuance>): seq<Due> {
    if issued == [] then []
    else DueIssuances(ca, issued[..|issued| - 1]) + DueOf(ca, issued[|issued| - 1].iss)
  }

  function DueShared(ss: seq<Shared>): seq<Due> {
    if ss == [] then []
    else
      var s := ss[|ss| - 1];
      DueShared(ss[..|ss| - 1]) + DueIssuances(s.ca, s.issuances)
  }

  /** The pending issuances of a journal, in the order recover takes them. */
  function AllDue(st: State): seq<Due> {
    DueDevices(st.challenges) + DueShared(st.shared)
  }

  function ProjectAll(files: Files, due: seq<Due>): (r: Files)
    requires IndexOf(files).Some?
    ensures IndexOf(r).Some?
  {
    if due == [] then files else Project(ProjectAll(files, due[..|due| - 1]), due[|due| - 1].iss)
  }

  /** What validateBackup asks of the serial of a pending issuance. */
  predicate SerialsOk(st: State) {
    && (forall c :: c in st.challenges && c.issue.Some? && !c.issue.value.published ==>
            ValidSerial(c.issue.value.record.serial))
    && (forall s, i :: s in st.shared && i in s.issuances && !i.iss.published ==> ValidSerial(i.iss.record.serial))
  }

  ghost predicate CasUsable(st: State, usable: string -> bool) {
    DevicesUsable(st.challenges, usable) && forall s :: s in st.shared ==> SharedUsable(s, usable)
  }

  ghost predicate DevicesUsable(cs: seq<Challenge>, usable: string -> bool) {
    forall c :: c in cs && c.issue.Some? && !c.issue.value.published ==> usable(c.ca)
  }

  ghost predicate SharedUsable(s: Shared, usable: string -> bool) {
    forall i :: i in s.issuances && !i.iss.published ==> usable(s.ca)
  }

  lemma NoneDue()
    ensures DueShared([]) == []
  {
  }

  /** The k-th shared challenge: what recovery has to do for it, and what it may rely on. */
  lemma OneMoreDue(st: State, k: nat, usable: string -> bool)
    requires k < |st.shared| && SerialsOk(st)
    ensures DueShared(st.shared[..k + 1]) ==
            DueShared(st.shared[..k]) + DueIssuances(st.shared[k].ca, st.shared[k].issuances)
    ensures forall i :: i in st.shared[k].issuances && !i.iss.published ==> ValidSerial(i.iss.record.serial)
    ensures CasUsable(st, usable) ==> forall i :: i in st.shared[k].issuances && !i.iss.published ==>
            usable(st.shared[k].ca)
  {
    hide DueIssuances;
    assert st.shared[k] in st.shared && st.shared[..k + 1][..k] == st.shared[..k];
  }

  lemma NothingDue(files: Files)
    requires IndexOf(files).Some?
    ensures ProjectAll(files, []) == files
  {
  }

  lemma {:induction false} ProjectAllAppends(files: Files, a: seq<Due>, b: seq<Due>)
    requires IndexOf(files).Some?
    ensures ProjectAll(files, a + b) == ProjectAll(ProjectAll(files, a), b)
  {
    if b == [] {
      assert a + b == a;
    } else {
      var init := b[..|b| - 1];
      ProjectAllAppends(files, a, init);
      assert (a + b)[..|a + b| - 1] == a + init;
    }
  }

  // ----- What recovery and staging change -----

  function PemPaths(due: seq<Due>): set<Path> {
    set d | d in due :: PemPath(d.iss.record.serial)
  }

  lemma PemPathsDiffer(a: string, b: string)
    requires PemPath(a) == PemPath(b)
    ensures a == b
  {
    var x, y := a + "-cert.pem", b + "-cert.pem";
    assert PemPath(a)[1] == x && PemPath(b)[1] == y;
    assert x[..|x| - 9] == a && y[..|y| - 9] == b;
  }

  /** The index only grows at its end, by records of due issuances whose serials it lacked, until it has them all. */
  ghost predicate IndexGrown(before: seq<Record>, after: seq<Record>, due: seq<Due>) {
    && before <= after
    && (forall k :: |before| <= k < |after| ==> after[k].serial !in Serials(after[..k]) && IsDue(due, after[k]))
    && (forall d :: d in due ==> d.iss.record.serial in Serials(after))
  }

  ghost predicate IsDue(due: seq<Due>, r: Record) {
    exists d :: d in due && d.iss.record == r
  }

  /** The PEM file of a due issuance holds the certificate of one with that serial. */
  ghost predicate PemIsDue(files: Files, due: seq<Due>, serial: string) {
    PemIn(At(files, PemPath(serial)), due, serial)
  }

  ghost predicate PemIn(pem: Option<Data>, due: seq<Due>, serial: string) {
    exists d :: d in due && d.iss.record.serial == serial && pem == Some(PemText(d.iss.der))
  }

  lemma {:induction false} ProjectAllIsExact(files: Files, due: seq<Due>)
    requires IndexOf(files).Some?
    ensures forall v :: v !in PemPaths(due) && (v != INDEX || due == []) ==>
            At(ProjectAll(files, due), v) == At(files, v)
    ensures forall d :: d in due ==> PemIsDue(ProjectAll(files, due), due, d.iss.record.serial)
    ensures IndexGrown(IndexOf(files).value, IndexOf(ProjectAll(files, due)).value, due)
  {
    if due == [] {
    } else {
      var init, last := due[..|due| - 1], due[|due| - 1];
      assert due == init + [last];
      ProjectAllIsExact(files, init);
      var mid := ProjectAll(files, init);
      ProjectIsExact(mid, last.iss);
      forall v | v !in PemPaths(due) && v != INDEX
        ensures At(ProjectAll(files, due), v) == At(files, v)
      {
        assert v !in PemPaths(init);
      }
      forall d | d in due
        ensures PemIsDue(ProjectAll(files, due), due, d.iss.record.serial)
      {
        OnePemMore(mid, init, last, d);
      }
      IndexGrowsOn(IndexOf(files).value, IndexOf(mid).value, init, last, IndexOf(ProjectAll(files, due)).value);
    }
  }

  lemma ProjectIsExact(files: Files, iss: Issuance)
    requires IndexOf(files).Some?
    ensures forall v :: v != PemPath(iss.record.serial) && v != INDEX ==> At(Project(files, iss), v) == At(files, v)
    ensures At(Project(files, iss), PemPath(iss.record.serial)) == Some(PemText(iss.der))
    ensures var recs := IndexOf(files).value;
            IndexOf(Project(files, iss)).value ==
                  if iss.record.serial in Serials(recs) then recs else recs + [iss.record]
  {
  }

  lemma OnePemMore(mid: Files, init: seq<Due>, last: Due, d: Due)
    requires IndexOf(mid).Some? && d in init + [last]
    requires forall e :: e in init ==> PemIsDue(mid, init, e.iss.record.serial)
    ensures PemIsDue(Project(mid, last.iss), init + [last], d.iss.record.serial)
  {
    ProjectIsExact(mid, last.iss);
    var due, after := init + [last], Project(mid, last.iss);
    if d.iss.record.serial == last.iss.record.serial {
      assert last in due;
    } else {
      var serial := d.iss.record.serial;
      var e :| e in init && e.iss.record.serial == serial && At(mid, PemPath(serial)) == Some(PemText(e.iss.der));
      if PemPath(d.iss.record.serial) == PemPath(last.iss.record.serial) {
        PemPathsDiffer(d.iss.record.serial, last.iss.record.serial);
      }
      assert e in due;
    }
  }

  lemma IndexGrowsOn(before: seq<Record>, mid: seq<Record>, init: seq<Due>, last: Due, after: seq<Record>)
    requires IndexGrown(before, mid, init)
    requires after == if last.iss.record.serial in Serials(mid) then mid else mid + [last.iss.record]
    ensures IndexGrown(before, after, init + [last])
  {
    var due := init + [last];
    forall k | |before| <= k < |after|
      ensures after[k].serial !in Serials(after[..k]) && IsDue(due, after[k])
    {
      if k < |mid| {
        assert after[..k] == mid[..k];
        var d :| d in init && d.iss.record == mid[k];
        assert d in due;
      } else {
        assert after[..k] == mid && last in due;
      }
    }
    SerialsAppend(mid, last.iss.record);
  }

  /** Where a staged tree may differ from its archive. */
  predicate MayChange(archive: Files, due: seq<Due>, regenerate: bool, v: Path) {
    || v == SESSION_KEY || (v == SCEP && SCEP in archive)
    || (v == INDEX && due != []) || v in PemPaths(due)
    || (regenerate && v in {TLS_CERT, TLS_KEY})
  }

  /** r is what staging makes of the archive. */
  ghost predicate Staged(archive: Files, r: Files, regenerate: bool, key: Data, cert: Data, certKey: Data)
    requires IndexOf(archive).Some? && JournalOf(archive).Some?
  {
    var st := JournalOf(archive).value;
    var due := AllDue(st);
    && (forall v :: !MayChange(archive, due, regenerate, v) ==> At(r, v) == At(archive, v))
    && At(r, SESSION_KEY) == Some(key)
    && JournalOf(r) == Some(if SCEP in archive then Disarm(Publish(st)) else st)
    && IndexOf(r).Some? && IndexGrown(IndexOf(archive).value, IndexOf(r).value, due)
    && (forall d :: d in due ==> PemIsDue(r, due, d.iss.record.serial))
    && (regenerate ==> At(r, TLS_CERT) == Some(cert) && At(r, TLS_KEY) == Some(certKey))
  }

  /** The tree that stageBackup leaves, step by step. */
  function StagedTree(archive: Files, regenerate: bool, key: Data, cert: Data, certKey: Data): Files
    requires IndexOf(archive).Some? && JournalOf(archive).Some?
  {
    var st := JournalOf(archive).value;
    var recovered :=
      if AllDue(st) == [] then archive else ProjectAll(archive, AllDue(st))[SCEP := JournalText(Publish(st))];
    var disarmed := if SCEP in archive then recovered[SCEP := JournalText(Disarm(Publish(st)))] else recovered;
    var keyed := disarmed[SESSION_KEY := key];
    if regenerate then Without(keyed, "tls")[TLS_CERT := cert][TLS_KEY := certKey] else keyed
  }

  lemma PathsAreDifferent(due: seq<Due>)
    ensures INDEX !in PemPaths(due) && SCEP !in PemPaths(due) && SESSION_KEY !in PemPaths(due)
    ensures TLS_CERT !in PemPaths(due) && TLS_KEY !in PemPaths(due)
    ensures forall v :: v in PemPaths(due) ==> v[..1] == ["certs"]
    ensures INDEX != SCEP && SESSION_KEY != TLS_CERT && SESSION_KEY != TLS_KEY && TLS_CERT != TLS_KEY
    ensures !(["tls"] <= INDEX) && !(["tls"] <= SCEP) && !(["tls"] <= SESSION_KEY)
  {
    assert TLS_CERT[0] == TLS_KEY[0] == "tls" && SESSION_KEY[0] == "auth" && TLS_CERT[1] != TLS_KEY[1];
  }

  /** Each path of the staged tree: fresh, from the journal, or as recovery projected it. */
  lemma StagedAt(archive: Files, regenerate: bool, key: Data, cert: Data, certKey: Data, v: Path)
    requires IndexOf(archive).Some? && JournalOf(archive).Some?
    ensures var r, st := StagedTree(archive, regenerate, key, cert, certKey), JournalOf(archive).value;
            && At(r, SESSION_KEY) == Some(key)
            && (regenerate ==> At(r, TLS_CERT) == Some(cert) && At(r, TLS_KEY) == Some(certKey))
            && At(r, SCEP) == (if SCEP in archive then Some(JournalText(Disarm(Publish(st)))) else None)
            && (v != SESSION_KEY && v != SCEP && !(regenerate && ["tls"] <= v) ==>
                    At(r, v) == At(ProjectAll(archive, AllDue(st)), v))
  {
    hide ProjectAll, Disarm, Publish, PemPath, AllDue, Without, IndexOf;
    var st := JournalOf(archive).value;
    PathsAreDifferent([]);
    NothingDue(archive);
    NoJournalNothingDue(archive);
    var plain := StagedTree(archive, false, key, cert, certKey);
    WithoutAt(plain, "tls", v);
    WithoutAt(plain, "tls", SCEP);
    WithoutAt(plain, "tls", SESSION_KEY);
  }

  lemma NoJournalNothingDue(archive: Files)
    requires JournalOf(archive).Some?
    ensures SCEP !in archive ==> AllDue(JournalOf(archive).value) == []
  {
  }

  lemma WithoutAt(files: Files, name: string, v: Path)
    ensures At(Without(files, name), v) == if [name] <= v then None else At(files, v)
  {
  }

  lemma StagedTreeIsStaged(
    archive: Files, regenerate: bool, key: Data, cert: Data, certKey: Data, stamp: string -> bool)
    requires IndexOf(archive).Some? && JournalOf(archive).Some? && forall v :: v in archive ==> KnownPath(v, stamp)
    ensures Staged(archive, StagedTree(archive, regenerate, key, cert, certKey), regenerate, key, cert, certKey)
  {
    hide ProjectAll, IndexGrown, PemIsDue, Publish, Disarm, StagedTree, KnownPath, AllDue, PemPaths;
    var st := JournalOf(archive).value;
    var due, r := AllDue(st), StagedTree(archive, regenerate, key, cert, certKey);
    PathsAreDifferent(due);
    ProjectAllIsExact(archive, due);
    StagedAt(archive, regenerate, key, cert, certKey, INDEX);
    forall v | !MayChange(archive, due, regenerate, v)
      ensures At(r, v) == At(archive, v)
    {
      StagedAt(archive, regenerate, key, cert, certKey, v);
      UnchangedPath(archive, regenerate, key, cert, certKey, v, stamp);
    }
    forall d | d in due
      ensures PemIsDue(r, due, d.iss.record.serial)
    {
      PemIsStaged(archive, regenerate, key, cert, certKey, d);
    }
  }

  lemma UnchangedPath(
    archive: Files, regenerate: bool, key: Data, cert: Data, certKey: Data, v: Path, stamp: string -> bool)
    requires IndexOf(archive).Some? && JournalOf(archive).Some? && forall u :: u in archive ==> KnownPath(u, stamp)
    requires !MayChange(archive, AllDue(JournalOf(archive).value), regenerate, v)
    ensures At(StagedTree(archive, regenerate, key, cert, certKey), v) == At(archive, v)
  {
    hide ProjectAll, Publish, Disarm, AllDue, PemPaths;
    var due := AllDue(JournalOf(archive).value);
    TlsPathsAreKnown(archive, v, stamp);
    hide KnownPath;
    StagedAt(archive, regenerate, key, cert, certKey, v);
    ProjectAllIsExact(archive, due);
  }

  lemma PemIsStaged(archive: Files, regenerate: bool, key: Data, cert: Data, certKey: Data, d: Due)
    requires IndexOf(archive).Some? && JournalOf(archive).Some? && d in AllDue(JournalOf(archive).value)
    ensures var due := AllDue(JournalOf(archive).value);
            PemIsDue(StagedTree(archive, regenerate, key, cert, certKey), due, d.iss.record.serial)
  {
    hide ProjectAll, StagedTree, AllDue, Publish, Disarm;
    var due, v := AllDue(JournalOf(archive).value), PemPath(d.iss.record.serial);
    ProjectAllIsExact(archive, due);
    StagedAt(archive, regenerate, key, cert, certKey, v);
    assert v in PemPaths(due) && v[0] == "certs";
    PathsAreDifferent(due);
    SamePem(ProjectAll(archive, due), StagedTree(archive, regenerate, key, cert, certKey), due, d.iss.record.serial);
  }

  lemma TlsPathsAreKnown(files: Files, v: Path, stamp: string -> bool)
    requires forall u :: u in files ==> KnownPath(u, stamp)
    ensures v in files && ["tls"] <= v ==> v == TLS_CERT || v == TLS_KEY
  {
    if v in files && ["tls"] <= v {
      assert v[0] == "tls" && KnownPath(v, stamp);
      assert v == [v[0], v[1]];
    }
  }

  lemma TlsPathsFit(dir: Path, stamp: string -> bool)
    requires dir == ["tls"]
    ensures KnownPath(TLS_CERT, stamp) && KnownPath(TLS_KEY, stamp) && !KnownPath(dir, stamp)
    ensures TLS_CERT[..1] == dir && TLS_KEY[..1] == dir
  {
  }

  lemma SamePem(a: Files, b: Files, due: seq<Due>, serial: string)
    requires PemIsDue(a, due, serial) && At(a, PemPath(serial)) == At(b, PemPath(serial))
    ensures PemIsDue(b, due, serial)
  {
  }

  /** A staged tree gives no certificate for what was unused in the archive, and otherwise decides as the archive. */
  lemma StagedTreeIsDisarmed(
    archive: Files, r: Files, regenerate: bool, key: Data, cert: Data, certKey: Data,
    serials: set<string>, q: Request, now: int, env: Env)
    requires IndexOf(archive).Some? && JournalOf(archive).Some? && Staged(archive, r, regenerate, key, cert, certKey)
    ensures JournalOf(r).Some?
    ensures forall c :: c in JournalOf(r).value.challenges && c.issue.None? ==> c.revoked
    ensures var st := JournalOf(archive).value;
            var d := FindDevice(st.challenges, q.challenge, st.ca);
            Decide(JournalOf(r).value, serials, q, now, env)
            == if d.Some? && st.challenges[d.value].issue.None? then Refuse else Decide(st, serials, q, now, env)
  {
    var st := JournalOf(archive).value;
    if SCEP in archive {
      StagedJournalIsDisarmed(st, serials, q, now, env);
      NoUnusedChallengeIsLive(Publish(st));
    }
  }

  /** What stageBackup demands of an archive. */
  ghost predicate InOrder(parsed: Option<Archive>, size: Data -> nat, rest: Files -> bool, stamp: string -> bool) {
    && parsed.Some? && ManifestOk(parsed.value) && FilesOk(parsed.value.files, size, stamp)
    && Validates(Unpack(parsed.value.files), rest)
  }

  /** The CAs that the archive's pending issuances need are usable. */
  ghost predicate Recoverable(parsed: Option<Archive>, usable: string -> bool) {
    && parsed.Some? && JournalOf(Unpack(parsed.value.files)).Some?
    && CasUsable(JournalOf(Unpack(parsed.value.files)).value, usable)
  }

  /** The part of validateBackup that staging relies on, and the rest of it. */
  predicate Validates(files: Files, rest: Files -> bool) {
    JournalOf(files).Some? && IndexOf(files).Some? && SerialsOk(JournalOf(files).value) && rest(files)
  }

  lemma ScepFileIsSeen(files: seq<BackupFile>)
    ensures "scep.json" in PathsOf(files) <==> SCEP in Unpack(files)
  {
    SplitOfPlain("scep.json", '/');
    UnpackedPaths(files, SCEP);
    forall f | f in files && Parts(f.path) == SCEP
      ensures f.path == "scep.json"
    {
      JoinOfSplit(f.path, '/');
    }
  }

  // ----- The stage -----

  /** A directory: what accepted paths lie below. */
  ghost predicate Above(d: Path, stamp: string -> bool) {
    exists v :: KnownPath(v, stamp) && d < v
  }

  lemma DirectoriesAreNoFiles(d: Path, stamp: string -> bool)
    requires Above(d, stamp)
    ensures !KnownPath(d, stamp)
    ensures forall k :: 0 <= k <= |d| ==> Above(d[..k], stamp)
  {
    var v :| KnownPath(v, stamp) && d < v;
    if KnownPath(d, stamp) {
      KnownPathsArePrefixFree(d, v, stamp);
    }
    forall k | 0 <= k <= |d|
      ensures Above(d[..k], stamp)
    {
      assert d[..k] < v;
    }
  }

  lemma StoreDirectories(stamp: string -> bool)
    ensures Above([], stamp) && Above(["cas"], stamp) && Above(["certs"], stamp) && Above(["auth"], stamp)
    ensures Above(["tls"], stamp)
  {
    PemPathIsKnown("0", stamp);
    assert KnownPath(["cas", CA_ROOT, "key.pem"], stamp) && KnownPath(SESSION_KEY, stamp) && KnownPath(TLS_KEY, stamp);
    assert ["cas"] < ["cas", CA_ROOT, "key.pem"] && ["certs"] < PemPath("0");
    assert ["auth"] < SESSION_KEY && ["tls"] < TLS_KEY;
    assert [] < SESSION_KEY;
  }

  lemma PemPathIsKnown(serial: string, stamp: string -> bool)
    requires ValidSerial(serial)
    ensures KnownPath(PemPath(serial), stamp)
  {
    var name := serial + "-cert.pem";
    assert name[..|name| - |"-cert.pem"|] == serial && name[|name| - |"-cert.pem"|..] == "-cert.pem";
  }

  /** The directory made by MkdirTemp.  Every write into it may fail. */
  class Stage {
    const stamp: string -> bool
    var files: Files
    var dirs: set<Path>
    var healthy: bool

    ghost predicate Valid()
      reads this
    {
      && (forall v :: v in files ==> KnownPath(v, stamp))
      && (forall d :: d in dirs ==> Above(d, stamp))
    }

    constructor (stamp: string -> bool, healthy: bool)
      ensures Valid() && files == map[] && dirs == {[]}
      ensures this.stamp == stamp && this.healthy == healthy
    {
      StoreDirectories(stamp);
      this.stamp, this.healthy := stamp, healthy;
      files, dirs := map[], {[]};
    }

    method MkdirAll(d: Path) returns (s: Status)
      requires Valid() && Above(d, stamp) && [] in dirs
      modifies this`dirs
      ensures Valid() && old(dirs) <= dirs
      ensures s.Done? ==> d in dirs
      ensures healthy ==> s.Done?
    {
      s := Done;
      for k := 0 to |d|
        invariant Valid() && old(dirs) <= dirs && d[..k] in dirs && s.Done?
      {
        DirectoriesAreNoFiles(d, stamp);
        DirectoriesAreNoFiles(d[..k + 1], stamp);
        var effect;
        s, effect := Fate(healthy);
        if d[..k + 1] in files {
          s, effect := Failed, false;
        }
        if effect {
          dirs := dirs + {d[..k + 1]};
        }
        if !s.Done? {
          return;
        }
      }
      assert d[..|d|] == d;
    }

    /** durableWrite, or os.WriteFile on a new file: fails on a directory and without a parent. */
    method Write(v: Path, data: Data) returns (s: Status)
      requires Valid() && KnownPath(v, stamp)
      modifies this`files
      ensures Valid()
      ensures files == old(files) || files == old(files)[v := data]
      ensures s.Done? ==> files == old(files)[v := data]
      ensures healthy && v[..|v| - 1] in dirs ==> s.Done?
    {
      var effect;
      s, effect := Fate(healthy);
      if v in dirs {
        DirectoriesAreNoFiles(v, stamp);
      }
      if v in dirs || v[..|v| - 1] !in dirs {
        s, effect := Failed, false;
      }
      if effect {
        files := files[v := data];
      }
    }

    /**
      The write loop of stageBackup.  Without faults it succeeds on exactly the
      archives whose own paths and sizes are in order.
      */
    method WriteFiles(archive: seq<BackupFile>, size: Data -> nat) returns (ok: bool, seen: set<string>)
      requires Valid() && files == map[] && dirs == {[]}
      modifies this`files, this`dirs
      ensures Valid() && [] in dirs
      ensures ok ==> FilesOk(archive, size, stamp) && files == Unpack(archive) && seen == PathsOf(archive)
      ensures healthy ==> (ok <==> FilesOk(archive, size, stamp))
    {
      hide KnownPath, BackupPath, Above, FilesOk, Unpack, Total;
      NoFiles(archive, size, stamp);
      seen := {};
      var total := 0;
      for i := 0 to |archive|
        invariant Valid() && [] in dirs
        invariant FilesOk(archive[..i], size, stamp) && files == Unpack(archive[..i])
        invariant total == Total(archive[..i], size) && seen == PathsOf(archive[..i])
      {
        var f := archive[i];
        OneMoreFile(archive, i, size, stamp);
        total := total + size(f.data);
        if !BackupPath(f.path, stamp) || f.path in seen || size(f.data) > FILE_LIMIT || total > TOTAL_LIMIT {
          return false, seen;
        }
        seen := seen + {f.path};
        var v := Parts(f.path);
        ParentIsDirectory(f.path, stamp);
        var s := MkdirAll(v[..|v| - 1]);
        if !s.Done? {
          return false, seen;
        }
        s := Write(v, f.data);
        if !s.Done? {
          return false, seen;
        }
      }
      assert archive[..|archive|] == archive;
      return true, seen;
    }

    /** OpenStore: the directories every store has. */
    method OpenStore() returns (s: Status)
      requires Valid() && [] in dirs
      modifies this`dirs
      ensures Valid()
      ensures s.Done? ==> [] in dirs && ["certs"] in dirs && ["auth"] in dirs && ["tls"] in dirs
      ensures healthy ==> s.Done?
    {
      StoreDirectories(stamp);
      s := MkdirAll(["cas"]);
      if s.Done? {
        s := MkdirAll(["certs"]);
      }
      if s.Done? {
        s := MkdirAll(["auth"]);
      }
      if s.Done? {
        s := MkdirAll(["tls"]);
      }
    }

    /** publish, into the stage. */
    method PublishOne(iss: Issuance) returns (s: Status)
      requires Valid() && ValidSerial(iss.record.serial) && IndexOf(files).Some?
      modifies this`files
      ensures Valid() && IndexOf(files).Some?
      ensures s.Done? ==> files == Project(old(files), iss)
      ensures healthy && [] in dirs && ["certs"] in dirs ==> s.Done?
    {
      PemPathIsKnown(iss.record.serial, stamp);
      assert PemPath(iss.record.serial)[..1] == ["certs"] && INDEX[..0] == [];
      s := Write(PemPath(iss.record.serial), PemText(iss.der));
      if !s.Done? {
        return;
      }
      var effect;
      s, effect := Fate(healthy);
      if !s.Done? {
        return;
      }
      var recs := IndexOf(files).value;
      if iss.record.serial !in Serials(recs) {
        s := Write(INDEX, IndexText(recs + [iss.record]));
      }
    }

    /** The closure of recover. */
    method Pend(ca: string, iss: Issuance, usable: string -> bool) returns (s: Status)
      requires Valid() && IndexOf(files).Some? && (!iss.published ==> ValidSerial(iss.record.serial))
      modifies this`files
      ensures Valid() && IndexOf(files).Some?
      ensures s.Done? ==> files == ProjectAll(old(files), DueOf(ca, iss)) && (iss.published || usable(ca))
      ensures healthy && [] in dirs && ["certs"] in dirs && (!iss.published ==> usable(ca)) ==> s.Done?
    {
      if iss.published {
        return Done;
      }
      if !usable(ca) {
        return Failed;
      }
      s := PublishOne(iss);
    }

    method RecoverDevices(st: State, usable: string -> bool) returns (s: Status, dirty: bool)
      requires Valid() && IndexOf(files).Some? && SerialsOk(st)
      modifies this`files
      ensures Valid() && IndexOf(files).Some?
      ensures s.Done? ==>
              && files == ProjectAll(old(files), DueDevices(st.challenges))
              && (dirty <==> DueDevices(st.challenges) != [])
              && DevicesUsable(st.challenges, usable)
      ensures healthy && [] in dirs && ["certs"] in dirs && CasUsable(st, usable) ==> s.Done?
    {
      hide ProjectAll, KnownPath, Above;
      var cs := st.challenges;
      NothingDue(files);
      s, dirty := Done, false;
      for i := 0 to |cs|
        invariant Valid() && IndexOf(files).Some? && s.Done?
        invariant files == ProjectAll(old(files), DueDevices(cs[..i])) && (dirty <==> DueDevices(cs[..i]) != [])
        invariant DevicesUsable(cs[..i], usable)
      {
        var c := cs[i];
        assert c in cs && cs[..i + 1] == cs[..i] + [c] && cs[..i + 1][..i] == cs[..i];
        if c.issue.Some? {
          ProjectAllAppends(old(files), DueDevices(cs[..i]), DueOf(c.ca, c.issue.value));
          dirty := dirty || !c.issue.value.published;
          s := Pend(c.ca, c.issue.value, usable);
          if !s.Done? {
            return;
          }
        } else {
          assert DueDevices(cs[..i + 1]) == DueDevices(cs[..i]);
        }
      }
      assert cs[..|cs|] == cs;
    }

    method RecoverIssuances(sh: Shared, usable: string -> bool) returns (s: Status, dirty: bool)
      requires Valid() && IndexOf(files).Some?
      requires forall i :: i in sh.issuances && !i.iss.published ==> ValidSerial(i.iss.record.serial)
      modifies this`files
      ensures Valid() && IndexOf(files).Some?
      ensures s.Done? ==>
                && files == ProjectAll(old(files), DueIssuances(sh.ca, sh.issuances))
                && (dirty <==> DueIssuances(sh.ca, sh.issuances) != [])
                && SharedUsable(sh, usable)
      ensures (forall i :: i in sh.issuances && !i.iss.published ==> usable(sh.ca)) ==>
                healthy && [] in dirs && ["certs"] in dirs ==> s.Done?
    {
      hide ProjectAll, KnownPath, Above;
      var issued := sh.issuances;
      NothingDue(files);
      s, dirty := Done, false;
      for j := 0 to |issued|
        invariant Valid() && IndexOf(files).Some? && s.Done?
        invariant files == ProjectAll(old(files), DueIssuances(sh.ca, issued[..j]))
        invariant (dirty <==> DueIssuances(sh.ca, issued[..j]) != [])
        invariant forall i :: i in issued[..j] && !i.iss.published ==> usable(sh.ca)
      {
        var iss := issued[j].iss;
        assert issued[j] in issued && issued[..j + 1] == issued[..j] + [issued[j]];
        assert issued[..j + 1][..j] == issued[..j];
        ProjectAllAppends(old(files), DueIssuances(sh.ca, issued[..j]), DueOf(sh.ca, iss));
        dirty := dirty || !iss.published;
        s := Pend(sh.ca, iss, usable);
        if !s.Done? {
          return;
        }
      }
      assert issued[..|issued|] == issued;
    }

    method RecoverShared(st: State, usable: string -> bool) returns (s: Status, dirty: bool)
      requires Valid() && IndexOf(files).Some? && SerialsOk(st)
      modifies this`files
      ensures Valid() && IndexOf(files).Some?
      ensures s.Done? ==>
              && files == ProjectAll(old(files), DueShared(st.shared)) && (dirty <==> DueShared(st.shared) != [])
              && forall k :: 0 <= k < |st.shared| ==> SharedUsable(st.shared[k], usable)
      ensures healthy && [] in dirs && ["certs"] in dirs && CasUsable(st, usable) ==> s.Done?
    {
      hide ProjectAll, KnownPath, Above, DueShared, DueIssuances, SerialsOk, CasUsable;
      var ss := st.shared;
      NothingDue(files);
      NoneDue();
      s, dirty := Done, false;
      for k := 0 to |ss|
        invariant Valid() && IndexOf(files).Some? && s.Done?
        invariant files == ProjectAll(old(files), DueShared(ss[..k])) && (dirty <==> DueShared(ss[..k]) != [])
        invariant forall j :: 0 <= j < k ==> SharedUsable(ss[j], usable)
      {
        OneMoreDue(st, k, usable);
        ProjectAllAppends(old(files), DueShared(ss[..k]), DueIssuances(ss[k].ca, ss[k].issuances));
        var more;
        s, more := RecoverIssuances(ss[k], usable);
        if !s.Done? {
          return;
        }
        dirty := dirty || more;
      }
      assert ss[..|ss|] == ss;
    }

    /** recover on the stage: every pending issuance is projected, and the journal says so. */
    method Recover(st: State, usable: string -> bool) returns (s: Status, next: State)
      requires Valid() && IndexOf(files).Some? && SerialsOk(st)
      modifies this`files
      ensures Valid()
      ensures s.Done? ==>
                var projected := ProjectAll(old(files), AllDue(st));
                && next == Publish(st) && CasUsable(st, usable)
                && files == if AllDue(st) == [] then old(files) else projected[SCEP := JournalText(next)]
      ensures healthy && [] in dirs && ["certs"] in dirs && CasUsable(st, usable) ==> s.Done?
    {
      hide ProjectAll, Above;
      next := st;
      ProjectAllAppends(files, DueDevices(st.challenges), DueShared(st.shared));
      NothingDue(files);
      var dirty, more;
      s, dirty := RecoverDevices(st, usable);
      if !s.Done? {
        return;
      }
      s, more := RecoverShared(st, usable);
      if !s.Done? {
        return;
      }
      next := Publish(st);
      if dirty || more {
        assert KnownPath(SCEP, stamp) && SCEP[..0] == [];
        s := Write(SCEP, JournalText(next));
      }
    }

    /** The loop over st.Challenges after recovery. */
    static method RevokeUnused(st: State) returns (next: State)
      ensures next == Disarm(st)
    {
      var cs := st.challenges;
      for i := 0 to |st.challenges|
        invariant |cs| == |st.challenges|
        invariant forall k :: 0 <= k < |cs| ==>
                cs[k] == if k < i then DisarmChallenge(st.challenges[k]) else st.challenges[k]
      {
        if cs[i].issue.None? {
          cs := cs[i := cs[i].(revoked := true)];
        }
      }
      next := st.(challenges := cs);
      assert cs == Disarm(st).challenges;
    }

    /** RemoveAll of one component of the stage, which is discarded if this fails. */
    method RemoveTree(name: string) returns (s: Status)
      requires Valid()
      modifies this`files, this`dirs
      ensures Valid()
      ensures forall d :: d in old(dirs) && !([name] <= d) ==> d in dirs
      ensures s.Done? ==> files == Without(old(files), name) && [name] !in dirs
      ensures healthy ==> s.Done?
    {
      hide KnownPath, Above;
      var effect;
      s, effect := Fate(healthy);
      if effect {
        files := Without(files, name);
        dirs := set d | d in dirs && !([name] <= d);
      }
    }

    /** The regenerate branch: the tls directory is made anew with a generated pair. */
    method ReplaceTls(cert: Data, certKey: Data) returns (s: Status)
      requires Valid() && [] in dirs
      modifies this`files, this`dirs
      ensures Valid()
      ensures forall d :: d in old(dirs) && !(["tls"] <= d) ==> d in dirs
      ensures s.Done? ==> files == Without(old(files), "tls")[TLS_CERT := cert][TLS_KEY := certKey]
      ensures healthy ==> s.Done?
    {
      hide KnownPath, Above;
      StoreDirectories(stamp);
      TlsPathsFit(["tls"], stamp);
      s := RemoveTree("tls");
      if !s.Done? {
        return;
      }
      var effect;
      s, effect := Fate(healthy);
      if ["tls"] in dirs || ["tls"] in files {
        s, effect := Failed, false;
      }
      if effect {
        dirs := dirs + {["tls"]};
      }
      if !s.Done? {
        return;
      }
      s := Write(TLS_CERT, cert);
      if s.Done? {
        s := Write(TLS_KEY, certKey);
      }
    }

    /**
      stageBackup on the decoded archive.  If it succeeds, the tree is the archive's,
      changed in exactly the places that Staged lists.  Without faults it succeeds on
      every archive that is in order.
      */
    method StageBackup(
      parsed: Option<Archive>, size: Data -> nat, rest: Files -> bool, usable: string -> bool,
      regenerate: bool, key: Data, cert: Data, certKey: Data)
      returns (ok: bool)
      requires Valid() && files == map[] && dirs == {[]}
      modifies this`files, this`dirs
      ensures Valid()
      ensures ok ==> InOrder(parsed, size, rest, stamp)
      ensures ok ==> Staged(Unpack(parsed.value.files), files, regenerate, key, cert, certKey)
      ensures ok ==> [] in dirs && ["auth"] in dirs && Recoverable(parsed, usable)
      ensures healthy ==> (ok <==> InOrder(parsed, size, rest, stamp) && Recoverable(parsed, usable))
    {
      hide KnownPath, Above, Unpack, FilesOk, SerialsOk, Staged, ProjectAll, Without, Publish, Disarm;
      if parsed.None? || !ManifestOk(parsed.value) {
        return false;
      }
      var wrote, seen := WriteFiles(parsed.value.files, size);
      if !wrote || !Validates(files, rest) {
        return false;
      }
      ghost var archive := files;
      StagedTreeIsStaged(archive, regenerate, key, cert, certKey, stamp);
      ScepFileIsSeen(parsed.value.files);
      var s := OpenStore();
      if !s.Done? {
        return false;
      }
      var next;
      s, next := Recover(JournalOf(files).value, usable);
      if !s.Done? {
        return false;
      }
      next := RevokeUnused(next);
      s := Finish("scep.json" in seen, next, key);
      if !s.Done? {
        return false;
      }
      if regenerate {
        assert ["tls"][0] != ["auth"][0];
        assert !(["tls"] <= ["auth"]) && !(["tls"] <= []);
        s := ReplaceTls(cert, certKey);
        if !s.Done? {
          return false;
        }
      }
      var effect;
      s, effect := Fate(healthy);
      ok := s.Done?;
    }

    /** The journal, if the archive has one, and a fresh session key. */
    method Finish(hasJournal: bool, next: State, key: Data) returns (s: Status)
      requires Valid() && [] in dirs && ["auth"] in dirs
      modifies this`files
      ensures Valid()
      ensures s.Done? ==>
              files == (if hasJournal then old(files)[SCEP := JournalText(next)] else old(files))[SESSION_KEY := key]
      ensures healthy ==> s.Done?
    {
      assert KnownPath(SCEP, stamp) && SCEP[..0] == [] && KnownPath(SESSION_KEY, stamp) && SESSION_KEY[..1] == ["auth"];
      s := Done;
      if hasJournal {
        s := Write(SCEP, JournalText(next));
      }
      if s.Done? {
        s := Write(SESSION_KEY, key);
      }
    }
  }

  lemma ParentIsDirectory(p: string, stamp: string -> bool)
    requires BackupPath(p, stamp)
    ensures KnownPath(Parts(p), stamp) && Above(Parts(p)[..|Parts(p)| - 1], stamp)
  {
    var v := Parts(p);
    assert v[..|v| - 1] < v;
  }

  lemma NoFiles(files: seq<BackupFile>, size: Data -> nat, stamp: string -> bool)
    ensures FilesOk(files[..0], size, stamp) && Total(files[..0], size) == 0
    ensures PathsOf(files[..0]) == {} && Unpack(files[..0]) == map[]
  {
  }

  lemma OneMoreFile(files: seq<BackupFile>, i: nat, size: Data -> nat, stamp: string -> bool)
    requires i < |files| && FilesOk(files[..i], size, stamp)
    ensures var f, total := files[i], Total(files[..i], size) + size(files[i].data);
            var ok :=
              && BackupPath(f.path, stamp) && f.path !in PathsOf(files[..i])
              && size(f.data) <= FILE_LIMIT && total <= TOTAL_LIMIT;
            && total == Total(files[..i + 1], size)
            && PathsOf(files[..i + 1]) == PathsOf(files[..i]) + {f.path}
            && Unpack(files[..i + 1]) == Unpack(files[..i])[Parts(f.path) := f.data]
            && (ok ==> FilesOk(files[..i + 1], size, stamp))
            && (!ok ==> !FilesOk(files, size, stamp))
  {
    hide BackupPath, FilesOk, Parts, Clean;
    assert files[..i + 1] == files[..i] + [files[i]] && files[..i + 1][..i] == files[..i];
    TotalGrows(files, i + 1, size);
    NewFileIsJudged(files, i, size, stamp);
  }

  lemma NewFileIsJudged(files: seq<BackupFile>, i: nat, size: Data -> nat, stamp: string -> bool)
    requires i < |files| && FilesOk(files[..i], size, stamp) && Total(files[..i + 1], size) <= Total(files, size)
    ensures FilesOk(files[..i + 1], size, stamp)
       <==> && FileOk(files[i], size, stamp) && files[i].path !in PathsOf(files[..i])
            && Total(files[..i + 1], size) <= TOTAL_LIMIT
    ensures FilesOk(files, size, stamp) ==> FilesOk(files[..i + 1], size, stamp)
  {
    hide FileOk, Total, DistinctPaths, PathsOf;
    PathIsNew(files, i);
    forall k | 0 <= k < i
      ensures FileOk(files[k], size, stamp)
    {
      assert files[..i][k] == files[k];
    }
    assert files[..i + 1][i] == files[i];
  }

  lemma PathIsNew(files: seq<BackupFile>, i: nat)
    requires i < |files| && DistinctPaths(files[..i])
    ensures files[i].path !in PathsOf(files[..i]) <==> DistinctPaths(files[..i + 1])
    ensures DistinctPaths(files) ==> DistinctPaths(files[..i + 1])
  {
    var f := files[i];
    forall k | 0 <= k < i
      ensures files[k].path in PathsOf(files[..i])
    {
      assert files[..i][k] in files[..i];
    }
    if f.path in PathsOf(files[..i]) {
      var g :| g in files[..i] && g.path == f.path;
      var k :| 0 <= k < i && files[k] == g;
      assert files[..i + 1][k].path == files[..i + 1][i].path;
    }
  }

  lemma {:induction false} TotalGrows(files: seq<BackupFile>, i: nat, size: Data -> nat)
    requires i <= |files|
    ensures Total(files[..i], size) <= Total(files, size)
  {
    if i < |files| {
      TotalGrows(files[..|files| - 1], i, size);
      assert files[..|files| - 1][..i] == files[..i];
    } else {
      assert files[..i] == files;
    }
  }
}
