/**
  The CA tree of a store: creating and deleting CAs, issuing and signing, with the
  invariant that every successful operation keeps (the root is created once).
  */
module CaTree {
  import opened Wrappers
  import opened CertIndex
  import opened IssuerWalk
  import Validator

  const DAY: int := 86400

  /** What a stored CA certificate says; leafOnly is a path length of zero. */
  datatype CaCert = CaCert(notBefore: int, notAfter: int, leafOnly: bool, scepCapable: bool)

  // ----- The invariant of the index -----

  predicate MayIssue(p: Record, r: Record) {
    && !p.IsLeaf() && p.CaId() == r.issuerId
    && (r.kind.Intermediate? ==> p.kind.RootCa? || p.allowSubCa)
    && r.notAfter <= p.notAfter
  }

  /** The root comes first; every other record's issuer was there before it and may issue it. */
  ghost predicate Placed(front: seq<Record>, r: Record) {
    if r.kind.RootCa? then front == [] else exists p :: p in front && MayIssue(p, r)
  }

  ghost predicate Grown(recs: seq<Record>) {
    recs == [] || (Grown(recs[..|recs| - 1]) && Placed(recs[..|recs| - 1], recs[|recs| - 1]))
  }

  /** Records as this version writes them: the validator takes each, and the id of an intermediate is its serial. */
  predicate Modern(r: Record) {
    Validator.RecordOk(r) && (r.kind.Intermediate? ==> r.caId == r.serial)
  }

  predicate MatchesFile(r: Record, c: CaCert) {
    && c.notBefore == r.notBefore && c.notAfter == r.notAfter
    && c.leafOnly == (r.kind.Intermediate? && !r.allowSubCa)
  }

  ghost predicate SoundIndex(recs: seq<Record>) {
    && UniqueSerials(recs) && UniqueCaIds(recs) && Grown(recs)
    && forall r :: r in recs ==> Modern(r)
  }

  ghost predicate FilesMatch(recs: seq<Record>, cas: map<string, CaCert>) {
    && (forall r :: r in recs && !r.IsLeaf() ==> r.CaId() in cas && MatchesFile(r, cas[r.CaId()]))
    && (forall id :: id in cas ==> exists r :: r in recs && !r.IsLeaf() && r.CaId() == id)
  }

  lemma ModernLookup(recs: seq<Record>, c: Record)
    requires SoundIndex(recs) && c in recs && !c.IsLeaf()
    ensures Lookup(recs, c.CaId()) == Some(c)
    ensures c.CaId() == CA_ROOT <==> c.kind.RootCa?
  {
    HexIsNoKeyword(c.serial);
    var found := Lookup(recs, c.CaId()).value;
    HexIsNoKeyword(found.serial);
    SameIdSameCa(recs, found, c);
  }

  lemma {:induction false} GrownIssuer(recs: seq<Record>, r: Record)
    requires Grown(recs) && r in recs && !r.kind.RootCa?
    ensures exists p :: p in recs && MayIssue(p, r)
  {
    var front := recs[..|recs| - 1];
    assert recs == front + [recs[|recs| - 1]];
    if r in front {
      GrownIssuer(front, r);
      var p :| p in front && MayIssue(p, r);
      assert p in recs;
    } else {
      var p :| p in front && MayIssue(p, r);
      assert p in recs;
    }
  }

  lemma RootReaches(recs: seq<Record>, c: Record)
    requires SoundIndex(recs) && c in recs && c.kind.RootCa?
    ensures ReachesSometime(recs, c.CaId())
  {
    ModernLookup(recs, c);
    assert ReachesRoot(recs, CA_ROOT, 0);
  }

  lemma ChildReaches(recs: seq<Record>, p: Record, c: Record)
    requires SoundIndex(recs) && c in recs && c.kind.Intermediate? && c.issuerId == p.CaId()
    requires ReachesSometime(recs, p.CaId())
    ensures ReachesSometime(recs, c.CaId())
  {
    hide ReachesSometime;
    ModernLookup(recs, c);
    ReachesStep(recs, c.CaId());
  }

  lemma LastPlaced(recs: seq<Record>, k: nat)
    requires 0 < k <= |recs| && Grown(recs[..k])
    ensures Grown(recs[..k - 1]) && Placed(recs[..k - 1], recs[k - 1]) && recs[..k] == recs[..k - 1] + [recs[k - 1]]
  {
    assert recs[..k][..k - 1] == recs[..k - 1];
  }

  /** Every CA that was placed in the first part of the index reaches the root. */
  lemma {:induction false} GrownReaches(recs: seq<Record>, k: nat, c: Record)
    requires SoundIndex(recs) && k <= |recs| && Grown(recs[..k]) && c in recs[..k] && !c.IsLeaf()
    ensures ReachesSometime(recs, c.CaId())
    decreases k
  {
    hide ReachesSometime, SoundIndex, Grown;
    var front := recs[..k - 1];
    LastPlaced(recs, k);
    if c in front {
      GrownReaches(recs, k - 1, c);
    } else if c.kind.RootCa? {
      RootReaches(recs, c);
    } else {
      var p :| p in front && MayIssue(p, c);
      GrownReaches(recs, k - 1, p);
      ChildReaches(recs, p, c);
    }
  }

  /** On a path of a sound index every CA was issued by the one before, which may issue it and outlives it. */
  lemma PathIsSound(recs: seq<Record>, path: seq<Record>, id: string)
    requires SoundIndex(recs) && IsPath(recs, path, id)
    ensures path[0].kind.RootCa?
    ensures forall k :: 0 < k < |path| ==> path[k].kind.Intermediate? && MayIssue(path[k - 1], path[k])
    ensures forall j, k :: 0 <= j <= k < |path| ==> path[k].notAfter <= path[j].notAfter
  {
    HexIsNoKeyword(path[0].serial);
    forall k | 0 < k < |path|
      ensures path[k].kind.Intermediate? && MayIssue(path[k - 1], path[k])
    {
      IssuerOnPath(recs, path, id, k);
    }
    forall j, k | 0 <= j <= k < |path|
      ensures path[k].notAfter <= path[j].notAfter
    {
      Descending(path, j, k);
    }
  }

  lemma IssuerOnPath(recs: seq<Record>, path: seq<Record>, id: string, k: nat)
    requires SoundIndex(recs) && IsPath(recs, path, id) && 0 < k < |path|
    ensures path[k].kind.Intermediate? && MayIssue(path[k - 1], path[k])
  {
    assert Lookup(recs, path[k].issuerId) == Some(path[k - 1]);
    HexIsNoKeyword(path[k - 1].serial);
    if k == |path| - 1 {
      assert path[k] in recs;
    } else {
      assert Lookup(recs, path[k + 1].issuerId) == Some(path[k]);
    }
    GrownIssuer(recs, path[k]);
    var p :| p in recs && MayIssue(p, path[k]);
    ModernLookup(recs, p);
  }

  lemma {:induction false} Descending(path: seq<Record>, j: nat, k: nat)
    requires j <= k < |path|
    requires forall i :: 0 < i < |path| ==> path[i].notAfter <= path[i - 1].notAfter
    ensures path[k].notAfter <= path[j].notAfter
    decreases k
  {
    if j == k {
    } else {
      Descending(path, j, k - 1);
    }
  }

  /** A record expires no later than any CA above it, up to the root. */
  lemma NothingOutlivesAnAncestor(recs: seq<Record>, path: seq<Record>, r: Record)
    requires SoundIndex(recs) && r in recs && !r.kind.RootCa? && IsPath(recs, path, r.issuerId)
    ensures forall k :: 0 <= k < |path| ==> r.notAfter <= path[k].notAfter
  {
    PathIsSound(recs, path, r.issuerId);
    GrownIssuer(recs, r);
    var p :| p in recs && MayIssue(p, r);
    ModernLookup(recs, p);
    assert path[|path| - 1] == p;
  }

  // ----- Keeping the index sound -----

  lemma SoundAppend(recs: seq<Record>, r: Record)
    requires SoundIndex(recs) && Placed(recs, r) && Modern(r) && r.serial !in Serials(recs)
    ensures SoundIndex(recs + [r])
  {
    var more := recs + [r];
    assert more[..|recs|] == recs;
    forall q | q in recs
      ensures q.serial != r.serial
      ensures !q.IsLeaf() && !r.IsLeaf() ==> q.CaId() != r.CaId()
    {
      HexIsNoKeyword(q.serial);
      HexIsNoKeyword(r.serial);
    }
  }

  /** No record that stays loses its issuer. */
  ghost predicate IssuersStay(recs: seq<Record>, gone: set<string>) {
    forall p, r :: p in recs && r in recs && r.serial !in gone && !r.kind.RootCa? && MayIssue(p, r) ==>
          p.serial !in gone
  }

  lemma PlacedAfterDelete(front: seq<Record>, r: Record, gone: set<string>)
    requires Placed(front, r) && IssuersStay(front + [r], gone) && r.serial !in gone
    ensures Placed(Kept(front, gone), r)
  {
    if !r.kind.RootCa? {
      var p :| p in front && MayIssue(p, r);
      assert p in front + [r] && r in front + [r];
      KeptMembers(front, gone, p);
    }
  }

  lemma {:induction false} GrownDelete(recs: seq<Record>, gone: set<string>)
    requires Grown(recs) && IssuersStay(recs, gone)
    ensures Grown(Kept(recs, gone))
  {
    hide Placed, MayIssue;
    if recs == [] {
    } else {
      var front, r := recs[..|recs| - 1], recs[|recs| - 1];
      assert recs == front + [r];
      GrownDelete(front, gone);
      KeptAppend(front, r, gone);
      if r.serial !in gone {
        PlacedAfterDelete(front, r, gone);
        assert (Kept(front, gone) + [r])[..|Kept(front, gone)|] == Kept(front, gone);
      } else {
        assert Kept(front, gone) + [] == Kept(front, gone);
      }
    }
  }

  lemma {:induction false} KeptUniqueIds(recs: seq<Record>, gone: set<string>)
    requires UniqueCaIds(recs)
    ensures UniqueCaIds(Kept(recs, gone))
  {
    if recs == [] {
    } else {
      var rest := recs[1..];
      KeptUniqueIds(rest, gone);
      forall r | r in Kept(rest, gone) && !r.IsLeaf() && !recs[0].IsLeaf()
        ensures r.CaId() != recs[0].CaId()
      {
        KeptMembers(rest, gone, r);
        var k :| 0 <= k < |rest| && rest[k] == r;
        assert recs[k + 1] == r;
      }
    }
  }

  /** Dropping records keeps the index sound if no record that stays loses its issuer. */
  lemma SoundDelete(recs: seq<Record>, gone: set<string>)
    requires SoundIndex(recs)
    requires IssuersStay(recs, gone)
    ensures SoundIndex(Kept(recs, gone))
  {
    GrownDelete(recs, gone);
    KeptUniqueIds(recs, gone);
    DroppedKeepsSerialsUnique(recs, gone);
    forall r | r in Kept(recs, gone)
      ensures Modern(r)
    {
      KeptMembers(recs, gone, r);
    }
  }

  lemma SubtreeLosesNoIssuer(recs: seq<Record>, id: string, sub: Subtree)
    requires SoundIndex(recs) && IsSubtree(recs, id, sub)
    ensures SoundIndex(Kept(recs, Serials(sub.cas + sub.certs)))
  {
    var removed := sub.cas + sub.certs;
    var gone := Serials(removed);
    DeletionIsExact(recs, id, sub);
    forall p, r | p in recs && r in recs && r.serial !in gone && !r.kind.RootCa? && MayIssue(p, r)
      ensures p.serial !in gone
    {
      KeptMembers(recs, gone, r);
      assert r in Kept(recs, gone) && !Descends(recs, id, r.issuerId);
      if p.serial in gone {
        var q :| q in removed && q.serial == p.serial;
        RemovedAreRecords(recs, id, sub);
        SameSerialSameRecord(recs, p, q);
      }
    }
    SoundDelete(recs, gone);
  }

  lemma RemovedAreRecords(recs: seq<Record>, id: string, sub: Subtree)
    requires IsSubtree(recs, id, sub)
    ensures forall q :: q in sub.cas + sub.certs ==> q in recs
  {
    forall q | q in sub.certs
      ensures q in recs
    {
      LeavesIssuedByMembers(recs, Ids(sub.cas), q);
    }
  }

  // ----- Expiry of signed requests -----

  /** NotAfter of a signed request; the bound and the checks belong to the template branch. */
  function SignedNotAfter(named: bool, boundExpiry: bool, days: int, now: int, caNotAfter: int): (r: Option<int>)
    ensures r.Some? && named ==> now < r.value <= caNotAfter
    ensures !named ==> r == Some(now + days * DAY)
    ensures named && boundExpiry ==> (r.Some? <==> days > 0 && caNotAfter > now)
  {
    var asked := now + days * DAY;
    if !named then Some(asked)
    else
      var notAfter := if boundExpiry && asked > caNotAfter then caNotAfter else asked;
      if notAfter > caNotAfter || notAfter <= now then None else Some(notAfter)
  }

  // ----- Records and files together -----

  function Earlier(a: int, b: int): int {
    if a <= b then a else b
  }

  function CaIdsOf(recs: seq<Record>): set<string> {
    set r | r in recs && r.kind.Intermediate? :: r.CaId()
  }

  function LeafSerials(recs: seq<Record>): set<string> {
    set r | r in recs && r.IsLeaf() :: r.serial
  }

  lemma CaIdsOfAppend(recs: seq<Record>, r: Record)
    ensures CaIdsOf(recs + [r]) == CaIdsOf(recs) + (if r.kind.Intermediate? then {r.CaId()} else {})
  {
  }

  lemma CaOfFile(recs: seq<Record>, cas: map<string, CaCert>, id: string) returns (c: Record)
    requires FilesMatch(recs, cas) && id in cas
    ensures c in recs && !c.IsLeaf() && c.CaId() == id && MatchesFile(c, cas[id])
  {
    c :| c in recs && !c.IsLeaf() && c.CaId() == id;
  }

  lemma {:induction false} GrownStartsAtRoot(recs: seq<Record>)
    requires Grown(recs) && recs != []
    ensures recs[0].kind.RootCa?
  {
    if |recs| <= 1 {
    } else {
      GrownStartsAtRoot(recs[..|recs| - 1]);
    }
  }

  lemma PlacedUnder(recs: seq<Record>, cas: map<string, CaCert>, r: Record)
    requires SoundIndex(recs) && FilesMatch(recs, cas) && r.issuerId in cas && !r.kind.RootCa?
    requires r.notAfter <= cas[r.issuerId].notAfter
    requires r.kind.Intermediate? ==> r.issuerId == CA_ROOT || !cas[r.issuerId].leafOnly
    ensures Placed(recs, r)
  {
    var p := CaOfFile(recs, cas, r.issuerId);
    ModernLookup(recs, p);
    assert MayIssue(p, r);
  }

  lemma NotPlaced(recs: seq<Record>, cas: map<string, CaCert>, r: Record)
    requires SoundIndex(recs) && FilesMatch(recs, cas) && r.issuerId in cas && r.IsLeaf()
    requires r.notAfter > cas[r.issuerId].notAfter
    ensures !SoundIndex(recs + [r])
  {
    assert (recs + [r])[..|recs|] == recs;
    forall p | p in recs
      ensures !MayIssue(p, r)
    {
    }
  }

  lemma FilesAppend(recs: seq<Record>, cas: map<string, CaCert>, r: Record, c: CaCert)
    requires SoundIndex(recs) && FilesMatch(recs, cas) && r.kind.Intermediate? && Modern(r)
    requires r.serial !in Serials(recs) && MatchesFile(r, c)
    ensures FilesMatch(recs + [r], cas[r.serial := c])
  {
    HexIsNoKeyword(r.serial);
    forall q | q in recs && !q.IsLeaf()
      ensures q.CaId() != r.serial
    {
      assert q.serial in Serials(recs);
    }
    forall id | id in cas
      ensures exists q :: q in recs + [r] && !q.IsLeaf() && q.CaId() == id
    {
      var q := CaOfFile(recs, cas, id);
      assert q in recs + [r];
    }
    assert r in recs + [r];
  }

  lemma FilesAppendLeaf(recs: seq<Record>, cas: map<string, CaCert>, r: Record)
    requires FilesMatch(recs, cas) && r.IsLeaf()
    ensures FilesMatch(recs + [r], cas)
  {
    forall id | id in cas
      ensures exists q :: q in recs + [r] && !q.IsLeaf() && q.CaId() == id
    {
      var q := CaOfFile(recs, cas, id);
      assert q in recs + [r];
    }
  }

  lemma CaSubtreeExists(recs: seq<Record>, cas: map<string, CaCert>, id: string)
    requires SoundIndex(recs) && FilesMatch(recs, cas) && id in cas
    ensures id == CA_ROOT || exists r :: r in recs && r.kind.Intermediate? && r.CaId() == id
  {
    var c := CaOfFile(recs, cas, id);
  }

  lemma SubtreeIds(recs: seq<Record>, id: string, sub: Subtree)
    requires IsSubtree(recs, id, sub)
    ensures CaIdsOf(sub.cas + sub.certs) == Ids(sub.cas) && LeafSerials(sub.cas + sub.certs) == Serials(sub.certs)
    ensures forall r :: r in sub.cas + sub.certs ==> !r.kind.RootCa? && (r.IsLeaf() || r in sub.cas)
  {
    var removed := sub.cas + sub.certs;
    forall q | q in sub.certs
      ensures q.IsLeaf()
    {
      LeavesIssuedByMembers(recs, Ids(sub.cas), q);
    }
    forall x
      ensures x in CaIdsOf(removed) <==> x in Ids(sub.cas)
    {
      if x in Ids(sub.cas) {
        var q :| q in sub.cas && q.CaId() == x;
        assert q in removed;
      }
    }
    assert forall q :: q in sub.certs ==> q in removed;
  }

  /** A CA record goes exactly when its id does. */
  lemma SubtreeTakesCa(recs: seq<Record>, id: string, sub: Subtree, c: Record)
    requires SoundIndex(recs) && IsSubtree(recs, id, sub) && c in recs && !c.IsLeaf()
    ensures c.serial in Serials(sub.cas + sub.certs) <==> c.CaId() in Ids(sub.cas)
  {
    var removed := sub.cas + sub.certs;
    SubtreeIds(recs, id, sub);
    RemovedAreRecords(recs, id, sub);
    if c.serial in Serials(removed) {
      var q :| q in removed && q.serial == c.serial;
      SameSerialSameRecord(recs, c, q);
    }
    if c.CaId() in Ids(sub.cas) {
      var q :| q in sub.cas && q.CaId() == c.CaId();
      SameIdSameCa(recs, c, q);
      assert c in removed;
    }
  }

  /** Deleting the records of a subtree and its CA files leaves exactly the other CAs' files. */
  lemma FilesDelete(recs: seq<Record>, cas: map<string, CaCert>, id: string, sub: Subtree)
    requires SoundIndex(recs) && FilesMatch(recs, cas) && IsSubtree(recs, id, sub)
    ensures FilesMatch(Kept(recs, Serials(sub.cas + sub.certs)), cas - Ids(sub.cas))
  {
    hide SoundIndex, IsSubtree;
    var gone := Serials(sub.cas + sub.certs);
    forall r | r in Kept(recs, gone) && !r.IsLeaf()
      ensures r in recs && r.CaId() !in Ids(sub.cas)
    {
      KeptMembers(recs, gone, r);
      SubtreeTakesCa(recs, id, sub, r);
    }
    forall x | x in cas && x !in Ids(sub.cas)
      ensures exists r :: r in Kept(recs, gone) && !r.IsLeaf() && r.CaId() == x
    {
      var c := CaOfFile(recs, cas, x);
      SubtreeTakesCa(recs, id, sub, c);
      KeptMembers(recs, gone, c);
    }
  }

  lemma LeafIssued(recs: seq<Record>, cas: map<string, CaCert>, r: Record)
    requires SoundIndex(recs) && FilesMatch(recs, cas) && r.issuerId in cas && r.IsLeaf()
    requires Modern(r) && r.serial !in Serials(recs)
    ensures SoundIndex(recs + [r]) <==> r.notAfter <= cas[r.issuerId].notAfter
    ensures FilesMatch(recs + [r], cas)
  {
    if r.notAfter <= cas[r.issuerId].notAfter {
      PlacedUnder(recs, cas, r);
      SoundAppend(recs, r);
    } else {
      NotPlaced(recs, cas, r);
    }
    FilesAppendLeaf(recs, cas, r);
  }

  lemma IntermediateCreated(recs: seq<Record>, cas: map<string, CaCert>, r: Record, c: CaCert)
    requires SoundIndex(recs) && FilesMatch(recs, cas) && r.issuerId in cas && r.kind.Intermediate?
    requires Modern(r) && r.serial !in Serials(recs) && MatchesFile(r, c)
    requires r.notAfter <= cas[r.issuerId].notAfter && (r.issuerId == CA_ROOT || !cas[r.issuerId].leafOnly)
    ensures SoundIndex(recs + [r]) && FilesMatch(recs + [r], cas[r.serial := c])
  {
    PlacedUnder(recs, cas, r);
    SoundAppend(recs, r);
    FilesAppend(recs, cas, r, c);
  }

  lemma RootCreated(r: Record, c: CaCert)
    requires r.kind.RootCa? && Modern(r) && MatchesFile(r, c)
    ensures SoundIndex([r]) && FilesMatch([r], map[CA_ROOT := c])
  {
    assert [r][..0] == [];
    assert r in [r];
  }

  /** The records that AddRecord keeps when a root is added. */
  function WithoutRoots(recs: seq<Record>): seq<Record> {
    if recs == [] then []
    else
      var last := recs[|recs| - 1];
      WithoutRoots(recs[..|recs| - 1]) + if last.kind.RootCa? then [] else [last]
  }

  method DropRoots(recs: seq<Record>) returns (kept: seq<Record>)
    ensures kept == WithoutRoots(recs)
  {
    kept := [];
    for i := 0 to |recs|
      invariant kept == WithoutRoots(recs[..i])
    {
      assert recs[..i + 1][..i] == recs[..i];
      if !recs[i].kind.RootCa? {
        kept := kept + [recs[i]];
      }
    }
    assert recs[..|recs|] == recs;
  }

  lemma {:induction false} WithoutRootsMembers(recs: seq<Record>, r: Record)
    ensures r in WithoutRoots(recs) <==> r in recs && !r.kind.RootCa?
  {
    if recs == [] {
    } else {
      assert recs == recs[..|recs| - 1] + [recs[|recs| - 1]];
      WithoutRootsMembers(recs[..|recs| - 1], r);
    }
  }

  lemma RootReplaced(recs: seq<Record>, cas: map<string, CaCert>, rec: Record, file: CaCert)
    requires SoundIndex(recs) && FilesMatch(recs, cas)
    requires rec.kind.RootCa? && Modern(rec) && MatchesFile(rec, file)
    ensures var more := WithoutRoots(recs) + [rec];
            SoundIndex(more) && FilesMatch(more, cas[CA_ROOT := file]) <==> forall r :: r in recs ==> r.kind.RootCa?
  {
    hide SoundIndex, FilesMatch, WithoutRoots;
    var others := WithoutRoots(recs);
    forall r
      ensures r in others <==> r in recs && !r.kind.RootCa?
    {
      WithoutRootsMembers(recs, r);
    }
    if others == [] {
      forall r | r in recs
        ensures r.kind.RootCa?
      {
        assert r !in others;
      }
      OnlyRoots(recs, cas);
      assert others + [rec] == [rec] && cas[CA_ROOT := file] == map[CA_ROOT := file];
      RootCreated(rec, file);
    } else {
      assert others[0] in others;
      HeadedByOther(others, rec);
    }
  }

  lemma OnlyRoots(recs: seq<Record>, cas: map<string, CaCert>)
    requires FilesMatch(recs, cas) && forall r :: r in recs ==> r.kind.RootCa?
    ensures forall id :: id in cas ==> id == CA_ROOT
  {
  }

  lemma HeadedByOther(others: seq<Record>, rec: Record)
    requires others != [] && !others[0].kind.RootCa?
    ensures !SoundIndex(others + [rec])
  {
    if Grown(others + [rec]) {
      GrownStartsAtRoot(others + [rec]);
    }
  }

  lemma LeafDelete(recs: seq<Record>, cas: map<string, CaCert>, leaf: Record)
    requires SoundIndex(recs) && FilesMatch(recs, cas) && leaf in recs && leaf.IsLeaf()
    ensures SoundIndex(Kept(recs, {leaf.serial})) && FilesMatch(Kept(recs, {leaf.serial}), cas)
  {
    forall r | r in recs && !r.IsLeaf()
      ensures r.serial != leaf.serial && r in Kept(recs, {leaf.serial})
    {
      if r.serial == leaf.serial {
        SameSerialSameRecord(recs, r, leaf);
      }
      KeptMembers(recs, {leaf.serial}, r);
    }
    SoundDelete(recs, {leaf.serial});
    forall r | r in Kept(recs, {leaf.serial})
      ensures r in recs
    {
      KeptMembers(recs, {leaf.serial}, r);
    }
    forall id | id in cas
      ensures exists q :: q in Kept(recs, {leaf.serial}) && !q.IsLeaf() && q.CaId() == id
    {
      var q := CaOfFile(recs, cas, id);
    }
  }

  /** The ids that reach the root are exactly those with a CA file. */
  lemma CasReach(recs: seq<Record>, cas: map<string, CaCert>, id: string)
    requires SoundIndex(recs) && FilesMatch(recs, cas)
    ensures ReachesSometime(recs, id) <==> id in cas
  {
    if id in cas {
      var c := CaOfFile(recs, cas, id);
      assert recs[..|recs|] == recs;
      GrownReaches(recs, |recs|, c);
    } else if Lookup(recs, id).Some? {
      HexIsNoKeyword(Lookup(recs, id).value.serial);
    } else {
      Unreachable(recs, id);
    }
  }

  lemma IdsAreValid(recs: seq<Record>, cas: map<string, CaCert>, id: string)
    requires SoundIndex(recs) && FilesMatch(recs, cas) && id in cas
    ensures id == CA_ROOT || ValidSerial(id)
  {
    var c := CaOfFile(recs, cas, id);
    HexIsNoKeyword(c.serial);
  }

  lemma {:induction false} ReachingChains(recs: seq<Record>, cas: map<string, CaCert>, id: string, n: nat)
    requires SoundIndex(recs) && FilesMatch(recs, cas) && ReachesRoot(recs, id, n)
    ensures ChainReaches(recs, cas, id, n)
    decreases n
  {
    hide SoundIndex, FilesMatch;
    CasReach(recs, cas, id);
    if n == 0 {
    } else {
      ReachingChains(recs, cas, Issuer(recs, id).value, n - 1);
      if Issuer(recs, id).value == "" {
        CasReach(recs, cas, "");
        IdsAreValid(recs, cas, "");
      }
    }
  }

  /** On a valid store IssuerChainPEM succeeds for every CA. */
  lemma ChainsReach(recs: seq<Record>, cas: map<string, CaCert>, id: string)
    requires SoundIndex(recs) && FilesMatch(recs, cas) && id in cas
    ensures ChainReachesSometime(recs, cas, id)
  {
    CasReach(recs, cas, id);
    var n: nat :| ReachesRoot(recs, id, n);
    ReachingChains(recs, cas, id, n);
  }

  // ----- The store -----

  class CaStore {
    var index: seq<Record>
    var cas: map<string, CaCert>   // cas/<id>/cert.pem
    var leaves: set<string>        // serials of certs/<serial>-cert.pem
    var trashed: seq<Record>       // records of every trash index so far

    ghost predicate Valid()
      reads this
    {
      SoundIndex(index) && FilesMatch(index, cas)
    }

    constructor ()
      ensures Valid() && index == []
    {
      index, cas, leaves, trashed := [], map[], {}, [];
    }

    predicate ValidCaId(id: string)
      reads this
    {
      (id == CA_ROOT || id == CA_INTERMEDIATE || ValidSerial(id)) && id in cas
    }

    function NormalizeIssuer(id: string): string
      reads this
    {
      if id == "" || !ValidCaId(id) then CA_ROOT else id
    }

    /**
      CreateCA.  A root that exists is replaced, in the index and on disk, and its record
      is appended behind what the old one issued: the invariant, in which a root heads
      the index, survives exactly when that is nothing.
      */
    method CreateRoot(cn: string, days: int, serial: string, now: int) returns (res: Result<Record, string>)
      requires Valid() && ValidSerial(serial)
      modifies this
      ensures res.Err? <==> cn == ""
      ensures res.Err? ==> index == old(index) && cas == old(cas)
      ensures res.Ok? ==>
                var r := res.value;
                && r == Record(serial, RootCa, "", "", false, now - 300, now + days * DAY, true, false, "")
                && index == WithoutRoots(old(index)) + [r]
                && cas == old(cas)[CA_ROOT := CaCert(r.notBefore, r.notAfter, false, false)]
      ensures res.Ok? ==> (Valid() <==> forall r :: r in old(index) ==> r.kind.RootCa?)
      ensures leaves == old(leaves) && trashed == old(trashed)
    {
      hide SoundIndex, FilesMatch;
      if cn == "" {
        return Err("common name is required");
      }
      var rec := Record(serial, RootCa, "", "", false, now - 300, now + days * DAY, true, false, "");
      var file := CaCert(now - 300, now + days * DAY, false, false);
      RootReplaced(index, cas, rec, file);
      cas := cas[CA_ROOT := file];
      var others := DropRoots(index);
      index := others + [rec];
      return Ok(rec);
    }

    /**
      CreateIntermediate.  keyOk stands for loading the parent's key, rsa for the
      requested key algorithm, serial for the fresh random serial.
      */
    method CreateIntermediate(cn: string, parentID: string, days: int, allowSubCas: bool, scep: bool, rsa: bool,
                              keyOk: bool, serial: string, now: int) returns (res: Result<Record, string>)
      requires Valid() && ValidSerial(serial) && serial !in Serials(index)
      modifies this
      ensures Valid()
      ensures res.Err? ==> index == old(index) && cas == old(cas)
      ensures res.Ok? ==>
                var r, parent := res.value, if parentID in old(cas) then parentID else CA_ROOT;
                && parent in old(cas)
                && r == Record(serial, Intermediate, parent, serial, allowSubCas, now - 300,
                               Earlier(now + days * DAY, old(cas)[parent].notAfter), true, false, "")
                && index == old(index) + [r]
                && cas == old(cas)[serial := CaCert(r.notBefore, r.notAfter, !allowSubCas, scep)]
      ensures res.Ok? && scep ==>
                var r, parent := res.value, if parentID in old(cas) then parentID else CA_ROOT;
                && UsableWhen(index, cas, serial, r, old(index), old(cas), parent)
                && (days > 0 && ChainValid(old(index), old(cas), parent, now) ==> ReadyAt(serial, true, now))
      ensures res.Ok? <==>
                var parent := if parentID in old(cas) then parentID else CA_ROOT;
                && cn != "" && parent in old(cas) && keyOk && (parent == CA_ROOT || !old(cas)[parent].leafOnly)
                && (scep ==> !allowSubCas && rsa)
      ensures leaves == old(leaves) && trashed == old(trashed)
    {
      hide SoundIndex, FilesMatch, UsableWhen, UsableAt, ChainValid, Modern;
      if parentID in cas { IdsAreValid(index, cas, parentID); }
      if scep && (allowSubCas || !rsa) {
        return Err("SCEP requires a leaf-only RSA intermediate");
      }
      if cn == "" {
        return Err("common name is required");
      }
      var parent := NormalizeIssuer(parentID);
      if parent !in cas || !keyOk {
        return Err("parent CA does not exist or is locked");
      }
      if cas[parent].leafOnly && parent != CA_ROOT {
        return Err("parent CA does not allow sub-CAs");
      }
      var notAfter := now + days * DAY;
      if notAfter > cas[parent].notAfter {
        notAfter := cas[parent].notAfter;
      }
      var rec := Record(serial, Intermediate, parent, serial, allowSubCas, now - 300, notAfter, true, false, "");
      ValidIdsDiffer(index, cas, parent, serial);
      CurrentChain(index, cas, parent, now);
      NewCaIsModern(rec);
      var file := CaCert(now - 300, notAfter, !allowSubCas, scep);
      IntermediateCreated(index, cas, rec, file);
      if scep {
        NewCaUsableWhen(index, cas, rec, file);
        NewCaUsable(index, cas, rec, file, now);
      }
      cas := cas[serial := file];
      index := index + [rec];
      return Ok(rec);
    }

    /** IssueCert.  policyOk stands for the template policy when one is named. */
    method IssueCert(cn: string, named: bool, issuerID: string, days: int, policyOk: bool, keyOk: bool,
                     serial: string, now: int) returns (res: Result<Record, string>)
      requires Valid() && ValidSerial(serial) && serial !in Serials(index)
      modifies this
      ensures Valid() && cas == old(cas)
      ensures res.Err? ==> index == old(index)
      ensures res.Err? ==> leaves == old(leaves)
      ensures res.Ok? ==>
                var r := res.value;
                && index == old(index) + [r] && leaves == old(leaves) + {serial}
                && r == Record(serial, Issued, issuerID, "", false, now - 300, now + days * DAY, true, false, "")
      ensures res.Ok? <==>
                && (cn != "" || named) && issuerID in cas
                && (issuerID == CA_ROOT || issuerID == CA_INTERMEDIATE || ValidSerial(issuerID))
                && keyOk && (named ==> policyOk) && now + days * DAY <= cas[issuerID].notAfter
      ensures trashed == old(trashed)
    {
      hide SoundIndex, FilesMatch;
      if cn == "" && !named {
        return Err("common name is required");
      }
      if issuerID == "" || !ValidCaId(issuerID) {
        return Err("select a valid issuing CA");
      }
      var issuer := NormalizeIssuer(issuerID);
      if !keyOk || (named && !policyOk) {
        return Err("locked CA or policy violation");
      }
      var notAfter := now + days * DAY;
      if notAfter > cas[issuer].notAfter {
        return Err("requested validity exceeds issuing CA expiration");
      }
      var rec := Record(serial, Issued, issuer, "", false, now - 300, notAfter, true, false, "");
      LeafIssued(index, cas, rec);
      leaves := leaves + {serial};
      index := index + [rec];
      return Ok(rec);
    }

    /**
      SignCSR.  Expiry is checked only for a named template, so the invariant survives
      exactly when one is named or the requested validity fits the issuer's anyway.
      */
    method SignCsr(named: bool, issuerID: string, days: int, csrOk: bool, keyOk: bool, serial: string, now: int)
      returns (res: Result<Record, string>)
      requires Valid() && ValidSerial(serial) && serial !in Serials(index)
      modifies this
      ensures cas == old(cas)
      ensures res.Err? ==> index == old(index)
      ensures res.Err? ==> leaves == old(leaves)
      ensures res.Ok? ==>
                var r := res.value;
                && index == old(index) + [r] && leaves == old(leaves) + {serial} && issuerID in cas
                && r == Record(serial, Csr, issuerID, "", false, now - 300, now + days * DAY, false, false, "")
                && (Valid() <==> named || now + days * DAY <= cas[issuerID].notAfter)
      ensures res.Ok? <==>
                && csrOk && keyOk && issuerID in cas
                && (issuerID == CA_ROOT || issuerID == CA_INTERMEDIATE || ValidSerial(issuerID))
                && (named ==> days > 0 && now + days * DAY <= cas[issuerID].notAfter)
      ensures trashed == old(trashed)
    {
      hide SoundIndex, FilesMatch;
      if !csrOk || issuerID == "" || !ValidCaId(issuerID) || !keyOk {
        return Err("bad request, issuer or key");
      }
      var notAfter := SignedNotAfter(named, false, days, now, cas[issuerID].notAfter);
      if notAfter.None? {
        return Err("requested validity exceeds issuing CA expiration");
      }
      var rec := Record(serial, Csr, issuerID, "", false, now - 300, notAfter.value, false, false, "");
      LeafIssued(index, cas, rec);
      leaves := leaves + {serial};
      index := index + [rec];
      return Ok(rec);
    }

    /** DeleteCA: the subtree goes to the trash as a whole. */
    method DeleteCa(id: string) returns (res: Result<Subtree, string>)
      requires Valid()
      modifies this
      ensures Valid()
      ensures res.Err? ==> index == old(index) && cas == old(cas) && trashed == old(trashed)
      ensures res.Ok? ==>
                var removed := res.value.cas + res.value.certs;
                && IsSubtree(old(index), id, res.value)
                && index == Kept(old(index), Serials(removed))
                && trashed == old(trashed) + removed
                && cas == old(cas) - Ids(res.value.cas) && leaves == old(leaves) - Serials(res.value.certs)
      ensures res.Ok? <==> id != CA_ROOT && id in old(cas)
    {
      hide SoundIndex, FilesMatch;
      if id in cas { IdsAreValid(index, cas, id); }
      if !ValidCaId(id) {
        return Err("CA not found");
      }
      CaSubtreeExists(index, cas, id);
      var sub := CaSubtree(index, id);
      if sub.Err? {
        return Err(sub.error);
      }
      SubtreeLosesNoIssuer(index, id, sub.value);
      FilesDelete(index, cas, id, sub.value);
      SubtreeIds(index, id, sub.value);
      Trash(sub.value.cas + sub.value.certs);
      return sub;
    }

    /** DeleteCert: one leaf goes to the trash. */
    method DeleteCert(serial: string) returns (res: Result<Record, string>)
      requires Valid()
      modifies this
      ensures Valid() && cas == old(cas)
      ensures res.Err? ==> index == old(index) && trashed == old(trashed)
      ensures res.Err? <==> !exists r :: r in old(index) && r.IsLeaf() && r.serial == serial
      ensures res.Ok? ==>
                && res.value in old(index) && res.value.IsLeaf() && res.value.serial == serial
                && index == Kept(old(index), {serial}) && trashed == old(trashed) + [res.value]
                && leaves == old(leaves) - {serial}
    {
      hide SoundIndex, FilesMatch;
      for i := 0 to |index|
        invariant index == old(index) && cas == old(cas) && trashed == old(trashed)
        invariant forall r :: r in index[..i] && r.IsLeaf() ==> r.serial != serial
      {
        var r := index[i];
        if r.serial == serial && r.IsLeaf() {
          LeafDelete(index, cas, r);
          assert Serials([r]) == {serial} && cas - CaIdsOf([r]) == cas;
          Trash([r]);
          return Ok(r);
        }
      }
      return Err("certificate not found");
    }

    /** trash without storage errors: files first, then the index. */
    method Trash(removed: seq<Record>)
      requires forall r :: r in removed ==> !r.kind.RootCa?
      modifies this
      ensures index == Kept(old(index), Serials(removed))
      ensures cas == old(cas) - CaIdsOf(removed)
      ensures trashed == old(trashed) + removed
      ensures leaves == old(leaves) - LeafSerials(removed)
    {
      trashed := trashed + removed;
      for i := 0 to |removed|
        invariant index == old(index) && trashed == old(trashed) + removed
        invariant cas == old(cas) - CaIdsOf(removed[..i]) && leaves == old(leaves) - LeafSerials(removed[..i])
      {
        var r := removed[i];
        assert removed[..i + 1] == removed[..i] + [r];
        if r.kind.Intermediate? {
          CaIdsOfAppend(removed[..i], r);
          cas := cas - {r.CaId()};
        } else {
          CaIdsOfAppend(removed[..i], r);
          leaves := leaves - {r.serial};
        }
      }
      assert removed[..|removed|] == removed;
      index := Filter(index, removed);
    }

    // ----- What the invariant gives -----

    /** CAPath on a valid store: every CA has a path, root first, along which nothing outlives its issuer. */
    method PathOf(id: string) returns (res: Result<seq<Record>, string>)
      requires Valid()
      ensures res.Ok? <==> id in cas
      ensures res.Ok? ==>
                var path := res.value;
                && IsPath(index, path, id) && path[0].kind.RootCa?
                && (forall k :: 0 < k < |path| ==> path[k].kind.Intermediate? && MayIssue(path[k - 1], path[k]))
                && (forall j, k :: 0 <= j <= k < |path| ==> path[k].notAfter <= path[j].notAfter)
    {
      CasReach(index, cas, id);
      res := CAPath(index, id);
      if res.Ok? {
        PathIsSound(index, res.value, id);
      }
    }

    ghost predicate ReadyAt(id: string, unlocked: bool, t: int)
      reads this
    {
      unlocked && UsableAt(index, cas, id, t)
    }

    /**
      SCEPService.ready: the selected CA's NotAfter capped by every ancestor's.  The cap
      holds for any index, sound or not.
      */
    method Ready(id: string, unlocked: bool, now: int) returns (res: Result<int, string>)
      ensures res.Ok? <==> ReadyAt(id, unlocked, now)
      ensures res.Ok? ==>
                exists chain: seq<CaCert> ::
                  && IsChain(index, cas, chain, id) && IsEarliest(res.value, chain)
                  && (forall c :: c in chain ==> c.notBefore <= now < c.notAfter)
      ensures Valid() && id in cas && id != CA_ROOT && cas[id].scepCapable && cas[id].leafOnly && unlocked ==>
                (res.Err? ==> exists chain: seq<CaCert> ::
                                && IsChain(index, cas, chain, id)
                                && exists c :: c in chain && !(c.notBefore <= now < c.notAfter))
    {
      hide SoundIndex, FilesMatch, IsEarliest, IsChain, ChainReachesSometime;
      if id == CA_ROOT || !ValidCaId(id) || !cas[id].scepCapable || !cas[id].leafOnly || !unlocked {
        if Valid() && id in cas { IdsAreValid(index, cas, id); }
        return Err("not a usable SCEP CA");
      }
      if Valid() { ChainsReach(index, cas, id); }
      var chain := IssuerChain(index, cas, id);
      if chain.Err? {
        return Err(chain.error);
      }
      ChainCertsAreFiles(index, cas, chain.value, id);
      OneChain(index, cas, chain.value, id, now);
      var notAfter := EarliestExpiry(chain.value, now);
      return if notAfter.None? then Err("CA chain not currently valid") else Ok(notAfter.value);
    }

    /**
      An enrollment seen from the CA: the selected CA must be ready, its cap bounds the
      expiry, and publication adds the certificate and its record.
      */
    method IssueScep(id: string, unlocked: bool, days: int, policyOk: bool, serial: string, now: int)
      returns (res: Result<Record, string>)
      requires Valid() && ValidSerial(serial) && serial !in Serials(index)
      modifies this`index, this`leaves
      ensures Valid()
      ensures res.Err? ==> index == old(index) && leaves == old(leaves)
      ensures res.Ok? ==>
                var r := res.value;
                && r == Record(serial, Csr, id, "", false, now - 300, r.notAfter, false, false, "scep")
                && index == old(index) + [r] && leaves == old(leaves) + {serial}
                && now < r.notAfter <= now + days * DAY
                && exists chain: seq<CaCert> ::
                     && IsChain(old(index), cas, chain, id)
                     && (forall c :: c in chain ==> c.notBefore <= now && r.notAfter <= c.notAfter)
                     && (r.notAfter == now + days * DAY || exists c :: c in chain && r.notAfter == c.notAfter)
      ensures res.Ok? <==> old(ReadyAt(id, unlocked, now)) && policyOk && days > 0
    {
      hide SoundIndex, FilesMatch, IsChain;
      var cap := Ready(id, unlocked, now);
      if cap.Err? {
        return Err(cap.error);
      }
      ghost var chain: seq<CaCert> :|
        && IsChain(index, cas, chain, id) && IsEarliest(cap.value, chain)
        && forall c :: c in chain ==> c.notBefore <= now < c.notAfter;
      OwnCertInChain(index, cas, chain, id);
      var notAfter := SignedNotAfter(true, true, days, now, cap.value);
      if !policyOk || notAfter.None? {
        return Err("policy violation or expired");
      }
      var rec := Record(serial, Csr, id, "", false, now - 300, notAfter.value, false, false, "scep");
      LeafIssued(index, cas, rec);
      leaves := leaves + {serial};
      index := index + [rec];
      return Ok(rec);
    }
  }

  ghost predicate AllCurrent(chain: seq<CaCert>, t: int) {
    forall c :: c in chain ==> c.notBefore <= t < c.notAfter
  }

  ghost predicate ChainValid(recs: seq<Record>, cas: map<string, CaCert>, id: string, t: int) {
    exists chain: seq<CaCert> :: IsChain(recs, cas, chain, id) && AllCurrent(chain, t)
  }

  lemma OneChain(recs: seq<Record>, cas: map<string, CaCert>, chain: seq<CaCert>, id: string, t: int)
    requires IsChain(recs, cas, chain, id)
    ensures ChainValid(recs, cas, id, t) <==> AllCurrent(chain, t)
  {
    hide IsChain;
    if ChainValid(recs, cas, id, t) {
      var other: seq<CaCert> :| IsChain(recs, cas, other, id) && AllCurrent(other, t);
      ChainIsUnique(recs, cas, chain, other, id);
    }
  }

  /** The certificates from CA id up to the root are all there and current at t, and the CA is for SCEP. */
  ghost predicate UsableAt(recs: seq<Record>, cas: map<string, CaCert>, id: string, t: int) {
    && id != CA_ROOT && (id == CA_INTERMEDIATE || ValidSerial(id)) && id in cas
    && cas[id].scepCapable && cas[id].leafOnly
    && ChainReachesSometime(recs, cas, id) && ChainValid(recs, cas, id, t)
  }

  lemma NewCaUsable(recs: seq<Record>, cas: map<string, CaCert>, r: Record, c: CaCert, t: int)
    requires SoundIndex(recs) && FilesMatch(recs, cas) && r.issuerId in cas && r.kind.Intermediate?
    requires r.serial !in cas && Modern(r) && c.scepCapable && c.leafOnly
    requires SoundIndex(recs + [r]) && FilesMatch(recs + [r], cas[r.serial := c])
    ensures UsableAt(recs + [r], cas[r.serial := c], r.serial, t)
       <==> c.notBefore <= t < c.notAfter && ChainValid(recs, cas, r.issuerId, t)
  {
    hide SoundIndex, FilesMatch, ChainValid, ChainReachesSometime;
    HexIsNoKeyword(r.serial);
    NewCaChain(recs, cas, r, c, t);
  }

  /** CA id can be used exactly within the dates of r while the chain of its parent, as it was before, is current. */
  ghost predicate UsableWhen(
    recs: seq<Record>, cas: map<string, CaCert>, id: string, r: Record,
    before: seq<Record>, casBefore: map<string, CaCert>, parent: string)
  {
    forall t ::
      UsableAt(recs, cas, id, t) <==> r.notBefore <= t < r.notAfter && ChainValid(before, casBefore, parent, t)
  }

  lemma NewCaUsableWhen(recs: seq<Record>, cas: map<string, CaCert>, r: Record, c: CaCert)
    requires SoundIndex(recs) && FilesMatch(recs, cas) && r.issuerId in cas && r.kind.Intermediate?
    requires r.serial !in cas && Modern(r) && c.scepCapable && c.leafOnly && MatchesFile(r, c)
    requires SoundIndex(recs + [r]) && FilesMatch(recs + [r], cas[r.serial := c])
    ensures UsableWhen(recs + [r], cas[r.serial := c], r.serial, r, recs, cas, r.issuerId)
  {
    forall t
      ensures UsableAt(recs + [r], cas[r.serial := c], r.serial, t)
         <==> r.notBefore <= t < r.notAfter && ChainValid(recs, cas, r.issuerId, t)
    {
      NewCaUsable(recs, cas, r, c, t);
    }
  }

  /** A CA with a certificate is not the one that a fresh serial is about to name. */
  lemma ValidIdsDiffer(recs: seq<Record>, cas: map<string, CaCert>, id: string, serial: string)
    requires SoundIndex(recs) && FilesMatch(recs, cas) && id in cas && ValidSerial(serial) && serial !in Serials(recs)
    ensures id != serial && serial !in cas && Validator.BackupCaId(id)
    ensures serial != CA_ROOT && serial != ""
  {
    HexIsNoKeyword(serial);
    var p := CaOfFile(recs, cas, id);
    if serial in cas {
      var q := CaOfFile(recs, cas, serial);
    }
  }

  lemma NewCaIsModern(r: Record)
    requires ValidSerial(r.serial) && r.kind.Intermediate? && r.caId == r.serial && r.hasKey && r.provenance == ""
    requires Validator.BackupCaId(r.issuerId) && r.issuerId != r.serial
    ensures Modern(r)
  {
    HexIsNoKeyword(r.serial);
  }

  lemma CurrentChain(recs: seq<Record>, cas: map<string, CaCert>, id: string, t: int)
    ensures ChainValid(recs, cas, id, t) ==> id in cas && t < cas[id].notAfter
  {
    hide IsChain;
    if chain: seq<CaCert> :| IsChain(recs, cas, chain, id) && AllCurrent(chain, t) {
      OwnCertInChain(recs, cas, chain, id);
    }
  }

  lemma SameIssuers(recs: seq<Record>, cas: map<string, CaCert>, more: seq<Record>, x: string)
    requires SoundIndex(recs) && FilesMatch(recs, cas) && SoundIndex(more) && recs <= more && x in cas
    ensures Issuer(more, x) == Issuer(recs, x)
  {
    var c := CaOfFile(recs, cas, x);
    var k :| 0 <= k < |recs| && recs[k] == c;
    assert more[k] == c;
    ModernLookup(recs, c);
    ModernLookup(more, c);
  }

  /** The chain of a new intermediate is its certificate on top of its parent's chain. */
  lemma NewCaChain(recs: seq<Record>, cas: map<string, CaCert>, r: Record, c: CaCert, t: int)
    requires SoundIndex(recs) && FilesMatch(recs, cas) && r.issuerId in cas && r.kind.Intermediate?
    requires r.serial !in cas && Modern(r)
    requires SoundIndex(recs + [r]) && FilesMatch(recs + [r], cas[r.serial := c])
    ensures ChainReachesSometime(recs + [r], cas[r.serial := c], r.serial)
    ensures ChainValid(recs + [r], cas[r.serial := c], r.serial, t)
       <==> c.notBefore <= t < c.notAfter && ChainValid(recs, cas, r.issuerId, t)
  {
    hide SoundIndex, FilesMatch, IsChain, ChainReachesSometime;
    var more, added := recs + [r], cas[r.serial := c];
    assert r in more;
    ModernLookup(more, r);
    HexIsNoKeyword(r.serial);
    var chain := ChainOf(recs, cas, r.issuerId);
    forall x | x in cas
      ensures Issuer(more, x) == Issuer(recs, x)
    {
      SameIssuers(recs, cas, more, x);
    }
    ChainKept(recs, cas, more, added, chain, r.issuerId);
    ChainCons(more, added, chain, r.serial);
    ChainsReach(more, added, r.serial);
    OneChain(more, added, [c] + chain, r.serial, t);
    OneChain(recs, cas, chain, r.issuerId, t);
    assert c in [c] + chain && forall x :: x in [c] + chain <==> x == c || x in chain;
  }

  lemma ChainOf(recs: seq<Record>, cas: map<string, CaCert>, id: string) returns (chain: seq<CaCert>)
    requires SoundIndex(recs) && FilesMatch(recs, cas) && id in cas
    ensures IsChain(recs, cas, chain, id)
  {
    ChainsReach(recs, cas, id);
    var n: nat :| ChainReaches(recs, cas, id, n);
    chain := ReachedChain(recs, cas, id, n);
  }

  ghost predicate IsEarliest(t: int, chain: seq<CaCert>) {
    (forall c :: c in chain ==> t <= c.notAfter) && exists c :: c in chain && t == c.notAfter
  }

  lemma ChainCertsAreFiles(recs: seq<Record>, cas: map<string, CaCert>, chain: seq<CaCert>, id: string)
    requires IsChain(recs, cas, chain, id)
    ensures chain != [] && forall c :: c in chain ==> exists x :: x in cas && cas[x] == c
  {
    var trail :| Trail(recs, trail) && trail[0] == id && trail[|trail| - 1] == CA_ROOT
                 && |chain| == |trail| && FilesOf(cas, trail, chain);
    forall c | c in chain
      ensures exists x :: x in cas && cas[x] == c
    {
      var k :| 0 <= k < |chain| && chain[k] == c;
      assert trail[k] in cas;
    }
  }

  lemma OwnCertInChain(recs: seq<Record>, cas: map<string, CaCert>, chain: seq<CaCert>, id: string)
    requires IsChain(recs, cas, chain, id)
    ensures id in cas && cas[id] in chain
  {
    var trail :| Trail(recs, trail) && trail[0] == id && trail[|trail| - 1] == CA_ROOT
                 && |chain| == |trail| && FilesOf(cas, trail, chain);
    assert chain[0] == cas[trail[0]];
  }

  // ----- The tree and the validator -----

  /** At most n steps lead from id to the root. */
  ghost predicate Near(recs: seq<Record>, id: string, n: nat) {
    exists m: nat :: m <= n && ReachesRoot(recs, id, m)
  }

  lemma NearStep(recs: seq<Record>, id: string, n: nat)
    requires id != CA_ROOT && Issuer(recs, id).Some?
    ensures Near(recs, id, n) <==> n > 0 && Near(recs, Issuer(recs, id).value, n - 1)
  {
    if Near(recs, id, n) {
      var m: nat :| m <= n && ReachesRoot(recs, id, m);
      assert ReachesRoot(recs, Issuer(recs, id).value, m - 1);
    }
    if n > 0 && Near(recs, Issuer(recs, id).value, n - 1) {
      var m: nat :| m <= n - 1 && ReachesRoot(recs, Issuer(recs, id).value, m);
      assert ReachesRoot(recs, id, m + 1);
    }
  }

  lemma NearRoot(recs: seq<Record>, c: Record, n: nat)
    requires Lookup(recs, CA_ROOT) == Some(c)
    ensures Near(recs, CA_ROOT, n)
  {
    assert ReachesRoot(recs, CA_ROOT, 0);
  }

  lemma TableHas(recs: seq<Record>, t: Validator.Tables, c: Record)
    requires Validator.TablesOf(recs, t) && c in recs && !c.IsLeaf()
    ensures c.CaId() in t.cas && t.cas[c.CaId()] == c.serial && c.serial in t.records && t.records[c.serial] == c
  {
    assert c.serial in Serials(recs);
  }

  lemma {:induction false} SoundWithin(recs: seq<Record>, t: Validator.Tables, c: Record, n: nat)
    requires SoundIndex(recs) && Validator.TablesOf(recs, t) && c in recs && !c.IsLeaf()
    ensures Validator.Within(t, c.CaId(), n) <==> Near(recs, c.CaId(), n)
    decreases n
  {
    hide SoundIndex, Validator.TablesOf, Near, ReachesRoot;
    ModernLookup(recs, c);
    TableHas(recs, t, c);
    if c.kind.RootCa? {
      NearRoot(recs, c, n);
    } else {
      NearStep(recs, c.CaId(), n);
      if n > 0 {
        var p := IssuerRecord(recs, c);
        SoundWithin(recs, t, p, n - 1);
      }
    }
  }

  lemma IssuerRecord(recs: seq<Record>, r: Record) returns (p: Record)
    requires SoundIndex(recs) && r in recs && !r.kind.RootCa?
    ensures p in recs && !p.IsLeaf() && p.CaId() == r.issuerId
  {
    GrownIssuer(recs, r);
    p :| p in recs && MayIssue(p, r);
  }

  /**
    A backup of a valid tree passes the record and chain checks exactly when signatures
    verify and every issuer is at most 64 steps below the root, which creation does not limit.
    */
  lemma TreeIsAccepted(recs: seq<Record>, t: Validator.Tables, signedBy: (Record, string) -> bool)
    requires SoundIndex(recs) && Validator.TablesOf(recs, t)
    ensures Validator.Accepted(recs, t, signedBy) <==>
            forall r :: r in recs ==>
              if r.kind.RootCa? then signedBy(r, CA_ROOT) else signedBy(r, r.issuerId) && Near(recs, r.issuerId, 64)
  {
    hide Validator.TablesOf, Near, Validator.Within, Validator.ChainOk;
    forall r | r in recs
      ensures Validator.ChainOk(t, r, signedBy) <==>
              if r.kind.RootCa? then signedBy(r, CA_ROOT) else signedBy(r, r.issuerId) && Near(recs, r.issuerId, 64)
    {
      TreeChain(recs, t, signedBy, r);
    }
  }

  lemma TreeChain(recs: seq<Record>, t: Validator.Tables, signedBy: (Record, string) -> bool, r: Record)
    requires SoundIndex(recs) && Validator.TablesOf(recs, t) && r in recs
    ensures Validator.ChainOk(t, r, signedBy) <==>
            if r.kind.RootCa? then signedBy(r, CA_ROOT) else signedBy(r, r.issuerId) && Near(recs, r.issuerId, 64)
  {
    hide SoundIndex, Validator.TablesOf, Near, Validator.Within;
    if !r.kind.RootCa? {
      var p := IssuerRecord(recs, r);
      SoundWithin(recs, t, p, 64);
      TableHas(recs, t, p);
    }
  }

  /** A root with n intermediates in a line below it, as CreateIntermediate with sub-CAs allowed builds it. */
  function DeepTree(n: nat): seq<Record> {
    if n == 0 then [Record("0", RootCa, "", "", false, 0, 1, true, false, "")] else DeepTree(n - 1) + [DeepCa(n)]
  }

  function DeepCa(k: nat): Record
    requires k > 0
  {
    Record(Hex(k), Intermediate, if k == 1 then CA_ROOT else Hex(k - 1), Hex(k), true, 0, 1, true, false, "")
  }

  lemma {:induction false} DeepMembers(n: nat, r: Record)
    ensures r in DeepTree(n) <==>
            r == Record("0", RootCa, "", "", false, 0, 1, true, false, "") || exists k :: 1 <= k <= n && r == DeepCa(k)
  {
    hide DeepCa;
    if n == 0 {
    } else {
      DeepMembers(n - 1, r);
    }
  }

  lemma {:induction false} DeepIsSound(n: nat)
    ensures SoundIndex(DeepTree(n))
  {
    hide SoundIndex, DeepTree, Hex, Modern;
    var root := Record("0", RootCa, "", "", false, 0, 1, true, false, "");
    if n == 0 {
      DeepRoot();
    } else {
      DeepIsSound(n - 1);
      var recs, r := DeepTree(n - 1), DeepCa(n);
      var p := if n == 1 then root else DeepCa(n - 1);
      DeepMembers(n - 1, p);
      DeepSerials(n);
      assert p in recs && MayIssue(p, r);
      SoundAppend(recs, r);
      DeepGrows(n);
    }
  }

  lemma DeepRoot()
    ensures SoundIndex(DeepTree(0))
  {
    hide SoundIndex;
    var root := Record("0", RootCa, "", "", false, 0, 1, true, false, "");
    RootCreated(root, CaCert(0, 1, false, false));
  }

  lemma DeepGrows(n: nat)
    requires n > 0
    ensures DeepTree(n) == DeepTree(n - 1) + [DeepCa(n)]
  {
  }

  lemma DeepSerials(n: nat)
    requires n > 0
    ensures Modern(DeepCa(n)) && DeepCa(n).serial !in Serials(DeepTree(n - 1))
    ensures n > 1 ==> DeepCa(n - 1).CaId() == Hex(n - 1)
  {
    SerialsAreFaithful(n, n - 1);
    SerialsAreFaithful(n - 1, n);
    HexIsNoKeyword(Hex(n));
    HexIsNoKeyword(Hex(n - 1));
    forall q | q in DeepTree(n - 1)
      ensures q.serial != Hex(n)
    {
      DeepMembers(n - 1, q);
      if k :| 1 <= k <= n - 1 && q == DeepCa(k) {
        SerialsAreFaithful(k, n);
      } else {
        SerialsAreFaithful(0, n);
        assert Hex(0) == "0";
      }
    }
  }

  lemma {:induction false} DeepReaches(n: nat, k: nat)
    requires 1 <= k <= n
    ensures ReachesRoot(DeepTree(n), Hex(k), k)
    decreases k
  {
    hide DeepTree, Hex;
    DeepLookup(n, k);
    if k == 1 {
      assert ReachesRoot(DeepTree(n), CA_ROOT, 0);
    } else {
      DeepReaches(n, k - 1);
    }
  }

  lemma DeepLookup(n: nat, k: nat)
    requires 1 <= k <= n
    ensures Hex(k) != CA_ROOT && Issuer(DeepTree(n), Hex(k)) == Some(if k == 1 then CA_ROOT else Hex(k - 1))
    ensures Lookup(DeepTree(n), CA_ROOT).Some?
  {
    hide DeepTree, Hex, SoundIndex, Lookup;
    var recs, root := DeepTree(n), Record("0", RootCa, "", "", false, 0, 1, true, false, "");
    DeepIsSound(n);
    DeepMembers(n, DeepCa(k));
    SerialsAreFaithful(k, k);
    HexIsNoKeyword(Hex(k));
    ModernLookup(recs, DeepCa(k));
    DeepMembers(n, root);
    ModernLookup(recs, root);
  }

  /** The limit is met by trees that can be built: with 66 intermediates in a line the backup is refused. */
  lemma DeepTreeIsRefused(n: nat, t: Validator.Tables)
    requires Validator.TablesOf(DeepTree(n), t)
    ensures SoundIndex(DeepTree(n))
    ensures Validator.Accepted(DeepTree(n), t, (r: Record, id: string) => true) <==> n <= 65
  {
    hide SoundIndex, DeepTree, Near, ReachesRoot, Validator.TablesOf, Validator.Accepted;
    var recs := DeepTree(n);
    DeepIsSound(n);
    TreeIsAccepted(recs, t, (r: Record, id: string) => true);
    forall r | r in recs && !r.kind.RootCa?
      ensures exists k :: 1 <= k <= n && r == DeepCa(k) && (Near(recs, r.issuerId, 64) <==> k <= 65)
    {
      DeepMembers(n, r);
      var k :| 1 <= k <= n && r == DeepCa(k);
      DeepIssuer(n, k);
    }
    if n >= 66 {
      DeepMembers(n, DeepCa(66));
      DeepIssuer(n, 66);
    }
  }

  lemma DeepIssuer(n: nat, k: nat)
    requires 1 <= k <= n
    ensures Near(DeepTree(n), DeepCa(k).issuerId, 64) <==> k <= 65
  {
    hide DeepTree;
    var recs, id := DeepTree(n), DeepCa(k).issuerId;
    if k == 1 {
      DeepReaches(n, 1);
    } else {
      DeepReaches(n, k - 1);
    }
    assert ReachesRoot(recs, id, k - 1);
    if m: nat :| m <= 64 && ReachesRoot(recs, id, m) {
      Validator.StepsAreUnique(recs, id, m, k - 1);
    }
  }

  /** The loop over the chain; the first certificate is the CA's own. */
  method EarliestExpiry(chain: seq<CaCert>, now: int) returns (t: Option<int>)
    requires chain != []
    ensures t.Some? <==> forall c :: c in chain ==> c.notBefore <= now < c.notAfter
    ensures t.Some? ==> IsEarliest(t.value, chain)
  {
    var notAfter := chain[0].notAfter;
    for i := 0 to |chain|
      invariant forall c :: c in chain[..i] ==> c.notBefore <= now < c.notAfter && notAfter <= c.notAfter
      invariant exists c :: c in chain && notAfter == c.notAfter
    {
      var c := chain[i];
      if now < c.notBefore || now >= c.notAfter {
        return None;
      }
      if c.notAfter < notAfter {
        notAfter := c.notAfter;
      }
    }
    return Some(notAfter);
  }

  /** A certificate signed for SCEP under the cap of Ready outlives no CA of its chain, whatever the index. */
  lemma ScepWithinChain(chain: seq<CaCert>, cap: int, days: int, now: int)
    requires IsEarliest(cap, chain) && days > 0 && (forall c :: c in chain ==> now < c.notAfter)
    ensures var t := SignedNotAfter(true, true, days, now, cap);
            t.Some? && now < t.value && forall c :: c in chain ==> t.value <= c.notAfter
  {
    var c :| c in chain && cap == c.notAfter;
  }
}
