/**
  Collecting the files of a backup, and why staging accepts what was collected and
  rebuilds the same tree from it.
  */
module Snapshot {
  import opened ArchivePaths
  import opened CertIndex
  import opened DataTree
  import opened Staging
  import opened Strings
  import opened Wrappers

  import Validator

  const SECRET_LIMIT: int := 1024
  const SECRETS_DIR: string := "ca-secrets/"

  predicate IsSecret(p: string) {
    SECRETS_DIR <= p
  }

  /** Ids under which a passphrase file of a CA is collected. */
  predicate Collects(recs: seq<Record>, secrets: map<string, Data>, id: string) {
    id in secrets && exists r :: r in recs && !r.IsLeaf() && r.CaId() == id
  }

  /** Every collected passphrase file has a name that staging knows. */
  ghost predicate SecretNamesOk(recs: seq<Record>, secrets: map<string, Data>) {
    forall id :: Collects(recs, secrets, id) ==> Validator.BackupCaId(id) && |id| <= 245
  }

  lemma SecretParts(id: string)
    ensures SECRETS_DIR + id == CA_SECRETS + "/" + id
    ensures Parts(SECRETS_DIR + id) == [CA_SECRETS] + Parts(id)
  {
    hide Split;
    SplitAt(CA_SECRETS, id, '/');
    SplitOfPlain(CA_SECRETS, '/');
  }

  lemma CaIdIsPlain(id: string)
    requires Validator.BackupCaId(id)
    ensures '/' !in id && '\\' !in id && id != "" && id != "." && id != ".."
  {
    assert id != "" && id[0] in id && id[0] != '.';
  }

  lemma CleanTwo(a: string, b: string)
    requires a !in {"", ".", ".."} && b !in {"", ".", ".."}
    ensures CleanParts([a, b], []) == [a, b]
  {
    assert [a, b][1..] == [b] && [b][1..] == [];
    assert CleanParts([b], [a]) == CleanParts([], [a] + [b]);
    assert CleanParts([a, b], []) == CleanParts([b], [] + [a]);
  }

  /** A passphrase file's archive path is accepted exactly for a well-formed id that is not too long. */
  lemma SecretPathAccepted(id: string, stamp: string -> bool)
    ensures BackupPath(SECRETS_DIR + id, stamp) <==> Validator.BackupCaId(id) && |id| <= 245
  {
    hide Clean, LivePath, TrashPath;
    var p := SECRETS_DIR + id;
    SecretParts(id);
    if Validator.BackupCaId(id) {
      CaIdIsPlain(id);
      SecretIsClean(id, stamp);
    }
    if BackupPath(p, stamp) {
      KnownSecret(Parts(p), stamp);
      JoinOfSplit(id, '/');
    }
  }

  lemma SecretIsClean(id: string, stamp: string -> bool)
    requires Validator.BackupCaId(id)
    ensures var p := SECRETS_DIR + id; Clean(p) == p && KnownPath(Parts(p), stamp)
  {
    CaIdIsPlain(id);
    SecretParts(id);
    SplitOfPlain(id, '/');
    CleanTwo(CA_SECRETS, id);
    JoinOfSplit(SECRETS_DIR + id, '/');
  }

  lemma KnownSecret(v: Path, stamp: string -> bool)
    requires KnownPath(v, stamp) && v[0] == CA_SECRETS
    ensures |v| == 2 && Validator.BackupCaId(v[1])
  {
  }

  // ----- The two loops of snapshotBackup -----

  function SecretFile(id: string, data: Data): BackupFile {
    BackupFile(SECRETS_DIR + id, data)
  }

  function CaIds(recs: seq<Record>): set<string> {
    set r | r in recs && !r.IsLeaf() :: r.CaId()
  }

  /** One passphrase file for each CA that has one, in the order of the records. */
  function SecretFiles(recs: seq<Record>, secrets: map<string, Data>): seq<BackupFile> {
    if recs == [] then []
    else
      var init, r := recs[..|recs| - 1], recs[|recs| - 1];
      var front := SecretFiles(init, secrets);
      if r.IsLeaf() || r.CaId() in CaIds(init) || r.CaId() !in secrets then front
      else front + [SecretFile(r.CaId(), secrets[r.CaId()])]
  }

  lemma {:induction false} SecretFilesMembers(recs: seq<Record>, secrets: map<string, Data>, f: BackupFile)
    ensures f in SecretFiles(recs, secrets)
       <==> exists id :: id in CaIds(recs) && id in secrets && f == SecretFile(id, secrets[id])
  {
    if recs == [] {
    } else {
      var init, r := recs[..|recs| - 1], recs[|recs| - 1];
      assert recs == init + [r];
      SecretFilesMembers(init, secrets, f);
      assert CaIds(recs) == CaIds(init) + (if r.IsLeaf() then {} else {r.CaId()});
    }
  }

  lemma SecretNamesDiffer(a: string, b: string)
    requires SECRETS_DIR + a == SECRETS_DIR + b
    ensures a == b
  {
    assert (SECRETS_DIR + a)[|SECRETS_DIR|..] == a && (SECRETS_DIR + b)[|SECRETS_DIR|..] == b;
  }

  /** No name is collected twice. */
  lemma {:induction false} SnapshotPathsDiffer(walked: seq<BackupFile>, recs: seq<Record>, secrets: map<string, Data>)
    requires DistinctPaths(walked) && forall f :: f in walked ==> !IsSecret(f.path)
    ensures DistinctPaths(walked + SecretFiles(recs, secrets))
  {
    if recs == [] {
      assert walked + SecretFiles(recs, secrets) == walked;
    } else {
      var init, r := recs[..|recs| - 1], recs[|recs| - 1];
      SnapshotPathsDiffer(walked, init, secrets);
      var front := SecretFiles(init, secrets);
      if !(r.IsLeaf() || r.CaId() in CaIds(init) || r.CaId() !in secrets) {
        var f := SecretFile(r.CaId(), secrets[r.CaId()]);
        assert walked + (front + [f]) == (walked + front) + [f];
        forall g | g in walked + front
          ensures g.path != f.path
        {
          if g in front {
            SecretFilesMembers(init, secrets, g);
            var id :| id in CaIds(init) && id in secrets && g == SecretFile(id, secrets[id]);
            if g.path == f.path {
              SecretNamesDiffer(id, r.CaId());
            }
          }
        }
      }
    }
  }

  /** Whether snapshotBackup's own limits hold of a selection. */
  ghost predicate WithinLimits(files: seq<BackupFile>, secrets: seq<BackupFile>, size: Data -> nat) {
    && (forall f :: f in secrets ==> size(f.data) <= SECRET_LIMIT)
    && Total(files + secrets, size) <= TOTAL_LIMIT && |files + secrets| <= COUNT_LIMIT
  }

  /** The walk over the data directory: any unexpected name or exceeded limit stops it. */
  method CollectFiles(walked: seq<BackupFile>, size: Data -> nat, stamp: string -> bool) returns (ok: bool, total: nat)
    requires DistinctPaths(walked)
    ensures ok <==> FilesOk(walked, size, stamp) && |walked| <= COUNT_LIMIT
    ensures ok ==> total == Total(walked, size)
  {
    hide BackupPath, FilesOk, Total;
    total := 0;
    NoFiles(walked, size, stamp);
    for i := 0 to |walked|
      invariant FilesOk(walked[..i], size, stamp) && total == Total(walked[..i], size)
      invariant i <= COUNT_LIMIT
    {
      OneMoreFile(walked, i, size, stamp);
      NotSeenBefore(walked, i);
      var n := size(walked[i].data);
      if !BackupPath(walked[i].path, stamp) || n > FILE_LIMIT || n > TOTAL_LIMIT - total || i >= COUNT_LIMIT {
        return false, total;
      }
      total := total + n;
    }
    assert walked[..|walked|] == walked;
    return true, total;
  }

  lemma NotSeenBefore(files: seq<BackupFile>, i: nat)
    requires i < |files| && DistinctPaths(files)
    ensures files[i].path !in PathsOf(files[..i])
  {
  }

  /**
    snapshotBackup's selection.  walked holds what the directory walk finds, which skips
    the passphrase directory; secrets is the effective passphrase directory.  It is the
    walk and one passphrase file for each CA that has one, unless a name of the walk is
    unexpected or a limit is exceeded.
    */
  method Collect(
    walked: seq<BackupFile>, recs: seq<Record>, secrets: map<string, Data>, size: Data -> nat, stamp: string -> bool)
    returns (r: Option<seq<BackupFile>>)
    requires DistinctPaths(walked)
    ensures var more := SecretFiles(recs, secrets);
            r == if FilesOk(walked, size, stamp) && WithinLimits(walked, more, size) then Some(walked + more) else None
  {
    hide BackupPath, Total, FilesOk, WithinLimits;
    var ok, total := CollectFiles(walked, size, stamp);
    LimitsGrow(walked, recs, 0, secrets, size);
    if !ok {
      return None;
    }
    LimitsAtStart(walked, size, stamp);
    var files := walked;
    var seen: set<string> := {};
    for i := 0 to |recs|
      invariant seen == CaIds(recs[..i]) && files == walked + SecretFiles(recs[..i], secrets)
      invariant total == Total(files, size) && WithinLimits(walked, SecretFiles(recs[..i], secrets), size)
    {
      var rec := recs[i];
      assert recs[..i + 1] == recs[..i] + [rec] && recs[..i + 1][..i] == recs[..i];
      LimitsGrow(walked, recs, i + 1, secrets, size);
      if !rec.IsLeaf() && rec.CaId() !in seen {
        var id := rec.CaId();
        seen := seen + {id};
        if id in secrets {
          var f := SecretFile(id, secrets[id]);
          OneSecretMore(walked, SecretFiles(recs[..i], secrets), f, size);
          if size(f.data) > SECRET_LIMIT || total + size(f.data) > TOTAL_LIMIT || |files| >= COUNT_LIMIT {
            return None;
          }
          files := files + [f];
          total := total + size(f.data);
        }
      }
    }
    assert recs[..|recs|] == recs;
    return Some(files);
  }

  lemma OneSecretMore(walked: seq<BackupFile>, front: seq<BackupFile>, f: BackupFile, size: Data -> nat)
    requires WithinLimits(walked, front, size)
    ensures walked + (front + [f]) == walked + front + [f]
    ensures Total(walked + front + [f], size) == Total(walked + front, size) + size(f.data)
    ensures WithinLimits(walked, front + [f], size)
       <==> && size(f.data) <= SECRET_LIMIT && |walked + front| < COUNT_LIMIT
            && Total(walked + front, size) + size(f.data) <= TOTAL_LIMIT
  {
    hide Total;
    TotalPlus(walked + front, f, size);
    assert walked + (front + [f]) == walked + front + [f];
  }

  lemma TotalPlus(files: seq<BackupFile>, f: BackupFile, size: Data -> nat)
    ensures Total(files + [f], size) == Total(files, size) + size(f.data)
  {
    assert (files + [f])[..|files|] == files;
  }

  /** A limit exceeded by the first records stays exceeded; none is exceeded by none. */
  lemma {:induction false} LimitsGrow(
    walked: seq<BackupFile>, recs: seq<Record>, i: nat, secrets: map<string, Data>, size: Data -> nat)
    requires i <= |recs|
    ensures WithinLimits(walked, SecretFiles(recs, secrets), size) ==>
            WithinLimits(walked, SecretFiles(recs[..i], secrets), size)
    ensures WithinLimits(walked, SecretFiles(recs[..0], secrets), size) ==> |walked| <= COUNT_LIMIT
  {
    assert walked + [] == walked;
    if i == |recs| {
      assert recs[..i] == recs;
    } else {
      var init := recs[..|recs| - 1];
      assert init[..i] == recs[..i];
      LimitsGrow(walked, init, i, secrets, size);
      FewerWithin(walked, recs, secrets, size);
    }
  }

  lemma FewerWithin(walked: seq<BackupFile>, recs: seq<Record>, secrets: map<string, Data>, size: Data -> nat)
    requires recs != []
    ensures WithinLimits(walked, SecretFiles(recs, secrets), size) ==>
            WithinLimits(walked, SecretFiles(recs[..|recs| - 1], secrets), size)
  {
    var front, all := SecretFiles(recs[..|recs| - 1], secrets), SecretFiles(recs, secrets);
    if all != front {
      var f := all[|front|];
      assert all == front + [f] && walked + all == walked + front + [f];
      TotalPlus(walked + front, f, size);
    }
  }

  lemma LimitsAtStart(walked: seq<BackupFile>, size: Data -> nat, stamp: string -> bool)
    requires FilesOk(walked, size, stamp) && |walked| <= COUNT_LIMIT
    ensures WithinLimits(walked, [], size) && walked + [] == walked
  {
    assert walked + [] == walked;
  }

  /** A snapshot passes the path, duplicate and size checks of staging exactly when its passphrase names do. */
  lemma SnapshotIsAccepted(
    walked: seq<BackupFile>, recs: seq<Record>, secrets: map<string, Data>, size: Data -> nat, stamp: string -> bool)
    requires FilesOk(walked, size, stamp) && forall f :: f in walked ==> !IsSecret(f.path)
    requires WithinLimits(walked, SecretFiles(recs, secrets), size)
    ensures FilesOk(walked + SecretFiles(recs, secrets), size, stamp) <==> SecretNamesOk(recs, secrets)
  {
    hide BackupPath, Total, SecretFiles, DistinctPaths;
    var more := SecretFiles(recs, secrets);
    var files := walked + more;
    SnapshotPathsDiffer(walked, recs, secrets);
    if SecretNamesOk(recs, secrets) {
      forall f | f in more
        ensures FileOk(f, size, stamp)
      {
        SecretFilesMembers(recs, secrets, f);
        var id :| id in CaIds(recs) && id in secrets && f == SecretFile(id, secrets[id]);
        assert Collects(recs, secrets, id);
        SecretPathAccepted(id, stamp);
      }
      forall i | 0 <= i < |files|
        ensures FileOk(files[i], size, stamp)
      {
        if i >= |walked| {
          assert files[i] == more[i - |walked|] && files[i] in more;
        }
      }
    }
    if FilesOk(files, size, stamp) {
      forall id | Collects(recs, secrets, id)
        ensures Validator.BackupCaId(id) && |id| <= 245
      {
        var f := SecretFile(id, secrets[id]);
        assert id in CaIds(recs);
        SecretFilesMembers(recs, secrets, f);
        var k :| 0 <= k < |more| && more[k] == f;
        assert files[|walked| + k] == f && FileOk(f, size, stamp);
        SecretPathAccepted(id, stamp);
      }
    }
  }

  /** The walk lets no CA directory pass whose id staging would not know. */
  lemma WalkedIdIsWellFormed(f: BackupFile, id: string, stamp: string -> bool)
    requires BackupPath(f.path, stamp) && Parts(f.path) == ["cas", id, "cert.pem"]
    ensures Validator.BackupCaId(id) && |id| <= 245
  {
    JoinOfSplit(f.path, '/');
    JoinThree("cas", id, "cert.pem");
    assert KnownPath(["cas", id, "cert.pem"], stamp);
  }

  lemma JoinThree(a: string, b: string, c: string)
    ensures Join([a, b, c], '/') == a + ['/'] + (b + ['/'] + c)
  {
    assert [a, b, c][1..] == [b, c] && [b, c][1..] == [c];
    assert Join([b, c], '/') == b + ['/'] + Join([c], '/');
  }

  ghost predicate CaWalked(walked: seq<BackupFile>, id: string) {
    exists f :: f in walked && Parts(f.path) == ["cas", id, "cert.pem"]
  }

  /** In a store where every CA of the index has its certificate file, every snapshot is accepted. */
  lemma SnapshotOfStoreIsAccepted(
    walked: seq<BackupFile>, recs: seq<Record>, secrets: map<string, Data>, size: Data -> nat, stamp: string -> bool)
    requires FilesOk(walked, size, stamp) && forall f :: f in walked ==> !IsSecret(f.path)
    requires WithinLimits(walked, SecretFiles(recs, secrets), size)
    requires forall r :: r in recs && !r.IsLeaf() ==> CaWalked(walked, r.CaId())
    ensures FilesOk(walked + SecretFiles(recs, secrets), size, stamp)
  {
    hide BackupPath, Total, SecretFiles, DistinctPaths, Parts;
    forall id | Collects(recs, secrets, id)
      ensures Validator.BackupCaId(id) && |id| <= 245
    {
      assert CaWalked(walked, id);
      var k :| 0 <= k < |walked| && Parts(walked[k].path) == ["cas", id, "cert.pem"];
      assert FileOk(walked[k], size, stamp);
      WalkedIdIsWellFormed(walked[k], id, stamp);
    }
    SnapshotIsAccepted(walked, recs, secrets, size, stamp);
  }

  /**
    The archive that snapshotBackup writes is in order for staging exactly when its contents
    validate: format, application name, date, count, paths and sizes always are.
    */
  lemma SnapshotIsInOrder(
    walked: seq<BackupFile>, recs: seq<Record>, secrets: map<string, Data>, size: Data -> nat, stamp: string -> bool,
    version: string, rest: Files -> bool)
    requires FilesOk(walked, size, stamp) && forall f :: f in walked ==> !IsSecret(f.path)
    requires WithinLimits(walked, SecretFiles(recs, secrets), size)
    requires forall r :: r in recs && !r.IsLeaf() ==> CaWalked(walked, r.CaId())
    requires 1 <= |version| <= 128
    ensures var files := walked + SecretFiles(recs, secrets);
            InOrder(Some(Archive(1, version, true, files)), size, rest, stamp) <==> Validates(Unpack(files), rest)
  {
    hide FilesOk, Unpack, SecretFiles, Validates;
    SnapshotOfStoreIsAccepted(walked, recs, secrets, size, stamp);
  }

  /** A CA that only the index knows, under an id that is no serial: its passphrase file makes staging refuse. */
  lemma UnknownIdIsRefused(data: Data, size: Data -> nat, stamp: string -> bool)
    requires size(data) <= SECRET_LIMIT
    ensures var recs := [Record("1", Intermediate, CA_ROOT, "x", false, 0, 1, true, false, "")];
            var more := SecretFiles(recs, map["x" := data]);
            FilesOk([], size, stamp) && WithinLimits([], more, size) && !FilesOk([] + more, size, stamp)
  {
    hide BackupPath, SecretFiles, Validator.BackupCaId;
    var r := Record("1", Intermediate, CA_ROOT, "x", false, 0, 1, true, false, "");
    OneSecret(r, map["x" := data]);
    TotalPlus([], SecretFile("x", data), size);
    assert [] + [SecretFile("x", data)] == [SecretFile("x", data)];
    SecretPathAccepted("x", stamp);
    NoSerial();
    assert !FileOk([SecretFile("x", data)][0], size, stamp);
  }

  lemma OneSecret(r: Record, secrets: map<string, Data>)
    requires !r.IsLeaf() && r.CaId() in secrets
    ensures SecretFiles([r], secrets) == [SecretFile(r.CaId(), secrets[r.CaId()])]
  {
    assert [r][..0] == [] && SecretFiles([], secrets) == [];
    assert SecretFiles([r], secrets) == [] + [SecretFile(r.CaId(), secrets[r.CaId()])];
  }

  lemma NoSerial()
    ensures !Validator.BackupCaId("x")
  {
    assert 'x' in "x";
  }

  /** Unpacking a snapshot gives back every file that was collected, and nothing else. */
  lemma SnapshotRoundTrip(walked: seq<BackupFile>, recs: seq<Record>, secrets: map<string, Data>, v: Path)
    requires DistinctPaths(walked) && forall f :: f in walked ==> !IsSecret(f.path)
    ensures var tree := Unpack(walked + SecretFiles(recs, secrets));
            && (forall f :: f in walked ==> At(tree, Parts(f.path)) == Some(f.data))
            && (forall id :: id in CaIds(recs) && id in secrets ==>
                    At(tree, Parts(SECRETS_DIR + id)) == Some(secrets[id]))
            && (v in tree ==> FromWalk(walked, v) || FromSecrets(recs, secrets, v))
  {
    hide SecretFiles, Parts;
    var files := walked + SecretFiles(recs, secrets);
    SnapshotPathsDiffer(walked, recs, secrets);
    forall f | f in files
      ensures At(Unpack(files), Parts(f.path)) == Some(f.data)
    {
      var k :| 0 <= k < |files| && files[k] == f;
      UnpackKeepsEveryFile(files, k);
    }
    forall id | id in CaIds(recs) && id in secrets
      ensures SecretFile(id, secrets[id]) in files
    {
      SecretFilesMembers(recs, secrets, SecretFile(id, secrets[id]));
    }
    UnpackedPaths(files, v);
    if v in Unpack(files) {
      var f :| f in files && Parts(f.path) == v;
      SecretFilesMembers(recs, secrets, f);
    }
  }

  ghost predicate FromWalk(walked: seq<BackupFile>, v: Path) {
    exists f :: f in walked && Parts(f.path) == v
  }

  ghost predicate FromSecrets(recs: seq<Record>, secrets: map<string, Data>, v: Path) {
    exists id :: id in CaIds(recs) && id in secrets && v == Parts(SECRETS_DIR + id)
  }
}
