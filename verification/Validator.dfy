/**
  The part of backup validation that accepts an issuer graph: per-record metadata,
  unique serials and CA ids, and a bounded walk from every record to the root.
  */
module Validator {
  import opened Wrappers
  import opened CertIndex
  import opened IssuerWalk

  const MAX_RECORDS: int := 10000
  const MAX_DEPTH: int := 64

  predicate BackupCaId(id: string) {
    id == CA_ROOT || id == CA_INTERMEDIATE || ValidSerial(id)
  }

  /** The checks of one record that look at nothing else. */
  predicate RecordOk(r: Record) {
    && ValidSerial(r.serial)
    && (r.provenance == "" || r.provenance == "scep")
    && match r.kind
       case RootCa => r.hasKey && r.caId == "" && r.issuerId == ""
       case Intermediate =>
         && BackupCaId(r.CaId()) && r.hasKey
         && r.CaId() != CA_ROOT && BackupCaId(r.issuerId) && r.CaId() != r.issuerId
         && (r.caId == "" || r.caId == r.serial)
       case Issued => BackupCaId(r.issuerId) && r.hasKey && !r.keyEnc
       case Csr => BackupCaId(r.issuerId) && !r.hasKey && !r.keyEnc
  }

  /** Which keys an accepted record has: a CA and an issued leaf one, a signed request none, and a leaf's in clear. */
  lemma AcceptedKeys(r: Record)
    requires RecordOk(r)
    ensures r.hasKey <==> r.kind in {RootCa, Intermediate, Issued}
    ensures r.keyEnc ==> r.kind in {RootCa, Intermediate}
    ensures r.caId != "" ==> r.kind in {Issued, Csr} || (r.kind.Intermediate? && r.caId == r.serial)
    ensures r.issuerId == "" <==> r.kind.RootCa?
  {
    if !r.kind.RootCa? {
      assert BackupCaId(r.issuerId);
    }
  }

  /** What the validator learns: CA id to certificate serial, and serial to record. */
  datatype Tables = Tables(cas: map<string, string>, records: map<string, Record>)

  ghost predicate TablesOf(recs: seq<Record>, t: Tables) {
    && (forall s :: s in t.records <==> s in Serials(recs))
    && (forall r :: r in recs ==> t.records[r.serial] == r)
    && (forall x :: x in t.cas <==> exists r :: r in recs && !r.IsLeaf() && r.CaId() == x)
    && (forall r :: r in recs && !r.IsLeaf() ==> t.cas[r.CaId()] == r.serial)
  }

  /** validateRecords; fileOk stands for the checks of the certificate and key files. */
  method ValidateRecords(recs: seq<Record>, fileOk: Record -> bool) returns (res: Option<Tables>)
    ensures res.Some? <==>
            && |recs| <= MAX_RECORDS && UniqueSerials(recs) && UniqueCaIds(recs)
            && forall r :: r in recs ==> RecordOk(r) && fileOk(r)
    ensures res.Some? ==> TablesOf(recs, res.value)
  {
    if |recs| > MAX_RECORDS {
      return None;
    }
    var t := Tables(map[], map[]);
    for i := 0 to |recs|
      invariant UniqueSerials(recs[..i]) && UniqueCaIds(recs[..i])
      invariant forall r :: r in recs[..i] ==> RecordOk(r) && fileOk(r)
      invariant TablesOf(recs[..i], t)
    {
      var r := recs[i];
      assert r in recs;
      if r.serial in t.records {
        SerialRepeats(recs, i, t);
        return None;
      }
      if !r.IsLeaf() && r.CaId() in t.cas {
        CaIdRepeats(recs, i, t);
        return None;
      }
      if !RecordOk(r) || !fileOk(r) {
        return None;
      }
      UniqueGrow(recs[..i], t, r);
      TablesGrow(recs[..i], t, r);
      assert recs[..i + 1] == recs[..i] + [r];
      t := t.(records := t.records[r.serial := r]);
      if !r.IsLeaf() {
        t := t.(cas := t.cas[r.CaId() := r.serial]);
      }
    }
    assert recs[..|recs|] == recs;
    return Some(t);
  }

  lemma SerialRepeats(recs: seq<Record>, i: nat, t: Tables)
    requires i < |recs| && TablesOf(recs[..i], t) && recs[i].serial in t.records
    ensures !UniqueSerials(recs)
  {
    var q :| q in recs[..i] && q.serial == recs[i].serial;
    var j :| 0 <= j < i && recs[..i][j] == q;
    assert recs[j].serial == recs[i].serial;
  }

  lemma CaIdRepeats(recs: seq<Record>, i: nat, t: Tables)
    requires i < |recs| && TablesOf(recs[..i], t) && !recs[i].IsLeaf() && recs[i].CaId() in t.cas
    ensures !UniqueCaIds(recs)
  {
    var q :| q in recs[..i] && !q.IsLeaf() && q.CaId() == recs[i].CaId();
    var j :| 0 <= j < i && recs[..i][j] == q;
    assert recs[j].CaId() == recs[i].CaId() && !recs[j].IsLeaf();
  }

  lemma UniqueGrow(front: seq<Record>, t: Tables, r: Record)
    requires TablesOf(front, t) && UniqueSerials(front) && UniqueCaIds(front)
    requires r.serial !in t.records && (r.IsLeaf() || r.CaId() !in t.cas)
    ensures UniqueSerials(front + [r]) && UniqueCaIds(front + [r])
  {
    forall q | q in front
      ensures q.serial != r.serial
      ensures !q.IsLeaf() && !r.IsLeaf() ==> q.CaId() != r.CaId()
    {
      assert q.serial in Serials(front);
      if !q.IsLeaf() {
        assert q.CaId() in t.cas;
      }
    }
  }

  lemma TablesGrow(front: seq<Record>, t: Tables, r: Record)
    requires TablesOf(front, t)
    requires r.serial !in t.records && (r.IsLeaf() || r.CaId() !in t.cas)
    ensures TablesOf(front + [r],
            Tables(if r.IsLeaf() then t.cas else t.cas[r.CaId() := r.serial], t.records[r.serial := r]))
  {
    var cas := if r.IsLeaf() then t.cas else t.cas[r.CaId() := r.serial];
    var more := front + [r];
    forall q | q in front
      ensures q.serial != r.serial && (!q.IsLeaf() && !r.IsLeaf() ==> q.CaId() != r.CaId())
    {
      assert q.serial in Serials(front);
    }
    assert Serials(more) == Serials(front) + {r.serial};
    forall x
      ensures x in cas <==> exists q :: q in more && !q.IsLeaf() && q.CaId() == x
    {
      if x in t.cas {
        var q :| q in front && !q.IsLeaf() && q.CaId() == x;
        assert q in more;
      }
      assert r in more;
    }
  }

  /** Following issuers through the tables reaches the root past at most n intermediates. */
  predicate Within(t: Tables, id: string, n: nat)
    decreases n
  {
    || id == CA_ROOT
    || (n > 0 && id in t.cas && t.cas[id] in t.records && Within(t, t.records[t.cas[id]].issuerId, n - 1))
  }

  predicate ChainOk(t: Tables, r: Record, signedBy: (Record, string) -> bool) {
    if r.kind.RootCa? then signedBy(r, CA_ROOT)
    else r.issuerId in t.cas && signedBy(r, r.issuerId) && Within(t, r.issuerId, MAX_DEPTH)
  }

  /** The issuer-chain loop; signedBy(r, id) is the signature check of r against CA id. */
  method ValidateChains(recs: seq<Record>, t: Tables, signedBy: (Record, string) -> bool) returns (ok: bool)
    requires TablesOf(recs, t)
    ensures ok <==> forall r :: r in recs ==> ChainOk(t, r, signedBy)
  {
    for i := 0 to |recs|
      invariant forall r :: r in recs[..i] ==> ChainOk(t, r, signedBy)
    {
      var r := recs[i];
      assert r in recs;
      if r.kind.RootCa? {
        if !signedBy(r, CA_ROOT) {
          return false;
        }
      } else {
        if r.issuerId !in t.cas || !signedBy(r, r.issuerId) {
          return false;
        }
        var id, depth := r.issuerId, 0;
        while id != CA_ROOT
          invariant 0 <= depth <= MAX_DEPTH
          invariant Within(t, r.issuerId, MAX_DEPTH) == Within(t, id, MAX_DEPTH - depth)
          decreases MAX_DEPTH - depth
        {
          if depth >= MAX_DEPTH || id !in t.cas {
            return false;
          }
          assert t.cas[id] in Serials(recs) by {
            var c :| c in recs && !c.IsLeaf() && c.CaId() == id;
          }
          id := t.records[t.cas[id]].issuerId;
          depth := depth + 1;
        }
        assert Within(t, r.issuerId, MAX_DEPTH);
      }
    }
    ok := true;
  }

  // ----- What acceptance means -----

  /** Everything the validator has checked when it accepts the records. */
  ghost predicate Accepted(recs: seq<Record>, t: Tables, signedBy: (Record, string) -> bool) {
    && UniqueSerials(recs) && UniqueCaIds(recs) && TablesOf(recs, t)
    && forall r :: r in recs ==> RecordOk(r) && ChainOk(t, r, signedBy)
  }

  /** An intermediate without an id of its own that another intermediate issued. */
  predicate StrayLegacy(r: Record) {
    r.kind.Intermediate? && r.caId == "" && r.issuerId != CA_ROOT
  }

  lemma LookupFindsCa(recs: seq<Record>, c: Record)
    requires UniqueCaIds(recs) && (forall r :: r in recs ==> RecordOk(r))
    requires c in recs && !c.IsLeaf() && !StrayLegacy(c)
    ensures Lookup(recs, c.CaId()) == Some(c)
  {
    var found := Lookup(recs, c.CaId()).value;
    HexIsNoKeyword(found.serial);
    HexIsNoKeyword(c.serial);
    assert found.CaId() == c.CaId();
    SameIdSameCa(recs, found, c);
  }

  /** A bounded walk through the tables is a walk through the records. */
  lemma {:induction false} WithinReaches(
    recs: seq<Record>, t: Tables, signedBy: (Record, string) -> bool, id: string, n: nat)
    requires Accepted(recs, t, signedBy) && (forall r :: r in recs ==> !StrayLegacy(r))
    requires Within(t, id, n) && id in t.cas && CA_ROOT in t.cas
    ensures exists m: nat :: m <= n && ReachesRoot(recs, id, m)
    decreases n
  {
    var c :| c in recs && !c.IsLeaf() && c.CaId() == id;
    LookupFindsCa(recs, c);
    if id == CA_ROOT {
      assert ReachesRoot(recs, id, 0);
    } else {
      assert t.records[t.cas[id]] == c;
      WithinReaches(recs, t, signedBy, c.issuerId, n - 1);
      var m: nat :| m <= n - 1 && ReachesRoot(recs, c.issuerId, m);
      assert ReachesRoot(recs, id, m + 1);
    }
  }

  lemma {:induction false} WithinNeedsRoot(
    recs: seq<Record>, t: Tables, signedBy: (Record, string) -> bool, id: string, n: nat)
    requires Accepted(recs, t, signedBy) && id in t.cas && Within(t, id, n)
    ensures CA_ROOT in t.cas
    decreases n
  {
    if id == CA_ROOT {
    } else {
      var c := t.records[t.cas[id]];
      assert c in recs && ChainOk(t, c, signedBy) by {
        var q :| q in recs && !q.IsLeaf() && q.CaId() == id;
      }
      WithinNeedsRoot(recs, t, signedBy, c.issuerId, n - 1);
    }
  }

  /**
    An accepted set without stray legacy intermediates: every CA reaches the root past at
    most 64 intermediate ancestors, and so does the issuer of every leaf.
    */
  lemma AcceptedChainsReachRoot(recs: seq<Record>, t: Tables, signedBy: (Record, string) -> bool, r: Record)
    requires Accepted(recs, t, signedBy) && (forall q :: q in recs ==> !StrayLegacy(q))
    requires r in recs
    ensures !r.kind.RootCa? ==> exists m: nat :: m <= MAX_DEPTH && ReachesRoot(recs, r.issuerId, m)
    ensures !r.IsLeaf() ==> exists m: nat :: m <= MAX_DEPTH + 1 && ReachesRoot(recs, r.CaId(), m)
  {
    if r.kind.RootCa? {
      LookupFindsCa(recs, r);
      assert ReachesRoot(recs, r.CaId(), 0);
    } else {
      WithinNeedsRoot(recs, t, signedBy, r.issuerId, MAX_DEPTH);
      WithinReaches(recs, t, signedBy, r.issuerId, MAX_DEPTH);
      if !r.IsLeaf() {
        LookupFindsCa(recs, r);
        HexIsNoKeyword(r.serial);
        var m: nat :| m <= MAX_DEPTH && ReachesRoot(recs, r.issuerId, m);
        assert ReachesRoot(recs, r.CaId(), m + 1);
      }
    }
  }

  /**
    Acceptance makes CAPath succeed for every CA exactly when no legacy intermediate is
    issued by another intermediate: the record search finds such a one under no id.
    */
  lemma AcceptedPathsExist(recs: seq<Record>, t: Tables, signedBy: (Record, string) -> bool)
    requires Accepted(recs, t, signedBy)
    ensures (forall r :: r in recs ==> !StrayLegacy(r))
       <==> (forall c :: c in recs && !c.IsLeaf() ==> ReachesSometime(recs, c.CaId()))
  {
    if forall r :: r in recs ==> !StrayLegacy(r) {
      forall c | c in recs && !c.IsLeaf()
        ensures ReachesSometime(recs, c.CaId())
      {
        AcceptedChainsReachRoot(recs, t, signedBy, c);
      }
    } else {
      var c :| c in recs && StrayLegacy(c);
      StrayLegacyIsLost(recs, c);
    }
  }

  lemma StrayLegacyIsLost(recs: seq<Record>, c: Record)
    requires UniqueCaIds(recs) && (forall r :: r in recs ==> RecordOk(r))
    requires c in recs && StrayLegacy(c)
    ensures !ReachesSometime(recs, c.CaId())
  {
    forall r | r in recs
      ensures !Matches(r, CA_INTERMEDIATE)
    {
      HexIsNoKeyword(r.serial);
      if Matches(r, CA_INTERMEDIATE) {
        SameIdSameCa(recs, r, c);
      }
    }
    Unreachable(recs, CA_INTERMEDIATE);
  }

  /** Such a record set exists: the validator accepts it, and CAPath fails for its intermediate under serial 2. */
  lemma StrayLegacyIsAccepted()
    ensures var root := Record("1", RootCa, "", "", false, 0, 1, true, false, "");
            var sub := Record("3", Intermediate, CA_ROOT, "3", true, 0, 1, true, false, "");
            var stray := Record("2", Intermediate, "3", "", false, 0, 1, true, false, "");
            var recs := [root, sub, stray];
            var t := Tables(map[CA_ROOT := "1", "3" := "3", CA_INTERMEDIATE := "2"],
                  map["1" := root, "3" := sub, "2" := stray]);
            Accepted(recs, t, (r: Record, id: string) => true) && !ReachesSometime(recs, stray.CaId())
  {
    var root := Record("1", RootCa, "", "", false, 0, 1, true, false, "");
    var sub := Record("3", Intermediate, CA_ROOT, "3", true, 0, 1, true, false, "");
    var stray := Record("2", Intermediate, "3", "", false, 0, 1, true, false, "");
    var recs := [root, sub, stray];
    var t := Tables(map[CA_ROOT := "1", "3" := "3", CA_INTERMEDIATE := "2"],
          map["1" := root, "3" := sub, "2" := stray]);
    hide TablesOf, UniqueSerials, UniqueCaIds, ReachesSometime;
    HexIsNoKeyword("3");
    WitnessTables(root, sub, stray, t);
    assert Within(t, CA_ROOT, 63) && Within(t, "3", 64);
    StrayLegacyIsLost(recs, stray);
  }

  lemma WitnessTables(root: Record, sub: Record, stray: Record, t: Tables)
    requires root == Record("1", RootCa, "", "", false, 0, 1, true, false, "")
    requires sub == Record("3", Intermediate, CA_ROOT, "3", true, 0, 1, true, false, "")
    requires stray == Record("2", Intermediate, "3", "", false, 0, 1, true, false, "")
    requires t ==
            Tables(map[CA_ROOT := "1", "3" := "3", CA_INTERMEDIATE := "2"], map["1" := root, "3" := sub, "2" := stray])
    ensures TablesOf([root, sub, stray], t) && UniqueSerials([root, sub, stray]) && UniqueCaIds([root, sub, stray])
  {
    HexIsNoKeyword("3");
    assert "1"[0] != "2"[0] && "1"[0] != "3"[0] && "2"[0] != "3"[0] && |CA_ROOT| != |CA_INTERMEDIATE|;
    ThreeRecords(root, sub, stray, t);
  }

  lemma ThreeRecords(a: Record, b: Record, c: Record, t: Tables)
    requires !a.IsLeaf() && !b.IsLeaf() && !c.IsLeaf()
    requires a.serial != b.serial && a.serial != c.serial && b.serial != c.serial
    requires a.CaId() != b.CaId() && a.CaId() != c.CaId() && b.CaId() != c.CaId()
    requires t.cas == map[a.CaId() := a.serial, b.CaId() := b.serial, c.CaId() := c.serial]
    requires t.records == map[a.serial := a, b.serial := b, c.serial := c]
    ensures TablesOf([a, b, c], t) && UniqueSerials([a, b, c]) && UniqueCaIds([a, b, c])
  {
    hide TablesOf, UniqueSerials, UniqueCaIds;
    NoRecords();
    var t1 := OneMoreCa([], Tables(map[], map[]), a);
    assert [] + [a] == [a];
    var t2 := OneMoreCa([a], t1, b);
    assert [a] + [b] == [a, b];
    ThirdRecord(a, b, c, t2);
  }

  lemma ThirdRecord(a: Record, b: Record, c: Record, t: Tables)
    requires TablesOf([a, b], t) && UniqueSerials([a, b]) && UniqueCaIds([a, b]) && !c.IsLeaf()
    requires t.cas.Keys == {a.CaId(), b.CaId()} && t.records.Keys == {a.serial, b.serial}
    requires c.serial != a.serial && c.serial != b.serial && c.CaId() != a.CaId() && c.CaId() != b.CaId()
    ensures TablesOf([a, b, c], Tables(t.cas[c.CaId() := c.serial], t.records[c.serial := c]))
    ensures UniqueSerials([a, b, c]) && UniqueCaIds([a, b, c])
  {
    hide TablesOf, UniqueSerials, UniqueCaIds;
    var more := OneMoreCa([a, b], t, c);
    assert [a, b] + [c] == [a, b, c];
  }

  lemma OneMoreCa(front: seq<Record>, t: Tables, c: Record) returns (t': Tables)
    requires TablesOf(front, t) && UniqueSerials(front) && UniqueCaIds(front) && !c.IsLeaf()
    requires c.serial !in t.records && c.CaId() !in t.cas
    ensures t' == Tables(t.cas[c.CaId() := c.serial], t.records[c.serial := c])
    ensures TablesOf(front + [c], t') && UniqueSerials(front + [c]) && UniqueCaIds(front + [c])
  {
    hide TablesOf, UniqueSerials, UniqueCaIds;
    UniqueGrow(front, t, c);
    TablesGrow(front, t, c);
    t' := Tables(t.cas[c.CaId() := c.serial], t.records[c.serial := c]);
  }

  lemma NoRecords()
    ensures TablesOf([], Tables(map[], map[])) && UniqueSerials([]) && UniqueCaIds([])
  {
  }

  // ----- No cycles -----

  lemma {:induction false} StepsAreUnique(recs: seq<Record>, id: string, m: nat, n: nat)
    requires ReachesRoot(recs, id, m) && ReachesRoot(recs, id, n)
    ensures m == n
    decreases m
  {
    if m > 0 && n > 0 {
      StepsAreUnique(recs, Issuer(recs, id).value, m - 1, n - 1);
    }
  }

  lemma {:induction false} TrailDescends(recs: seq<Record>, trail: seq<string>, n: nat)
    requires Trail(recs, trail) && ReachesRoot(recs, trail[0], n)
    ensures |trail| - 1 <= n && ReachesRoot(recs, trail[|trail| - 1], n - (|trail| - 1))
    decreases |trail|
  {
    if |trail| <= 1 {
    } else {
      var rest := trail[1..];
      assert Issuer(recs, trail[0]) == Some(trail[1]);
      forall k | 0 <= k < |rest| - 1
        ensures Issuer(recs, rest[k]) == Some(rest[k + 1])
      {
        assert Issuer(recs, trail[k + 1]) == Some(trail[k + 2]);
      }
      TrailDescends(recs, rest, n - 1);
    }
  }

  /** A CA that reaches the root is on no cycle of the issuer graph. */
  lemma ReachingIsAcyclic(recs: seq<Record>, trail: seq<string>)
    requires Trail(recs, trail) && ReachesSometime(recs, trail[0]) && |trail| > 1
    ensures trail[|trail| - 1] != trail[0]
  {
    var n: nat :| ReachesRoot(recs, trail[0], n);
    TrailDescends(recs, trail, n);
    if trail[|trail| - 1] == trail[0] {
      StepsAreUnique(recs, trail[0], n, n - (|trail| - 1));
    }
  }
}
