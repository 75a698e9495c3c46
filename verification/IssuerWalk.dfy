/**
  The two walks from a CA up to the root, each guarded against loops, and exactly when
  they succeed: the guard never cuts off a chain that would have reached the root.
  */
module IssuerWalk {
  import opened Wrappers
  import opened CertIndex

  /** findCARecord's test, including the one legacy intermediate without an id of its own. */
  predicate Matches(r: Record, id: string) {
    if r.kind.Intermediate? then
      r.caId == id || (r.caId == "" && id == CA_INTERMEDIATE && r.issuerId == CA_ROOT)
    else r.kind.RootCa? && id == CA_ROOT
  }

  /** The first matching record, in the order the records are listed. */
  function Lookup(recs: seq<Record>, id: string): (r: Option<Record>)
    ensures r.Some? ==> r.value in recs && Matches(r.value, id)
    ensures r.None? ==> forall x :: x in recs ==> !Matches(x, id)
  {
    if recs == [] then None
    else if Matches(recs[0], id) then Some(recs[0])
    else Lookup(recs[1..], id)
  }

  /** The CA that issued CA id, if id is not the root and has a record. */
  function Issuer(recs: seq<Record>, id: string): Option<string> {
    if id == CA_ROOT || Lookup(recs, id).None? then None else Some(Lookup(recs, id).value.issuerId)
  }

  // ----- Where the walks lead -----

  /** Each id on the trail but the last is followed by its issuer. */
  ghost predicate Trail(recs: seq<Record>, trail: seq<string>) {
    trail != [] && forall k :: 0 <= k < |trail| - 1 ==> Issuer(recs, trail[k]) == Some(trail[k + 1])
  }

  /** Following issuers from id reaches the root's record in n steps. */
  predicate ReachesRoot(recs: seq<Record>, id: string, n: nat)
    decreases n
  {
    if n == 0 then id == CA_ROOT && Lookup(recs, CA_ROOT).Some?
    else Issuer(recs, id).Some? && ReachesRoot(recs, Issuer(recs, id).value, n - 1)
  }

  ghost predicate ReachesSometime(recs: seq<Record>, id: string) {
    exists n: nat :: ReachesRoot(recs, id, n)
  }

  /** The same when every CA on the way also needs a certificate file and an issuer name. */
  predicate ChainReaches<Cert>(recs: seq<Record>, files: map<string, Cert>, id: string, n: nat)
    decreases n
  {
    && id in files
    && if n == 0 then id == CA_ROOT
       else
         && Issuer(recs, id).Some? && Issuer(recs, id).value != ""
         && ChainReaches(recs, files, Issuer(recs, id).value, n - 1)
  }

  ghost predicate ChainReachesSometime<Cert>(recs: seq<Record>, files: map<string, Cert>, id: string) {
    exists n: nat :: ChainReaches(recs, files, id, n)
  }

  lemma ReachesStep(recs: seq<Record>, id: string)
    requires Issuer(recs, id).Some?
    ensures ReachesSometime(recs, id) == ReachesSometime(recs, Issuer(recs, id).value)
  {
    if ReachesSometime(recs, Issuer(recs, id).value) {
      var n: nat :| ReachesRoot(recs, Issuer(recs, id).value, n);
      assert ReachesRoot(recs, id, n + 1);
    }
    if ReachesSometime(recs, id) {
      var n: nat :| ReachesRoot(recs, id, n);
      assert ReachesRoot(recs, Issuer(recs, id).value, n - 1);
    }
  }

  lemma ChainStep<Cert>(recs: seq<Record>, files: map<string, Cert>, id: string)
    requires id in files && Issuer(recs, id).Some? && Issuer(recs, id).value != ""
    ensures ChainReachesSometime(recs, files, id) == ChainReachesSometime(recs, files, Issuer(recs, id).value)
  {
    if ChainReachesSometime(recs, files, Issuer(recs, id).value) {
      var n: nat :| ChainReaches(recs, files, Issuer(recs, id).value, n);
      assert ChainReaches(recs, files, id, n + 1);
    }
    if ChainReachesSometime(recs, files, id) {
      var n: nat :| ChainReaches(recs, files, id, n);
      assert ChainReaches(recs, files, Issuer(recs, id).value, n - 1);
    }
  }

  /** Ids that all have an issuer among themselves never lead to the root. */
  lemma {:induction false} TrappedNeverReaches(recs: seq<Record>, ids: set<string>, id: string, n: nat)
    requires forall x :: x in ids ==> Issuer(recs, x).Some? && Issuer(recs, x).value in ids
    requires id in ids
    ensures !ReachesRoot(recs, id, n)
    decreases n
  {
    if n == 0 {
    } else {
      TrappedNeverReaches(recs, ids, Issuer(recs, id).value, n - 1);
    }
  }

  lemma {:induction false} TrappedNeverChains<Cert>(
    recs: seq<Record>, files: map<string, Cert>, ids: set<string>, id: string, n: nat)
    requires forall x :: x in ids ==> Issuer(recs, x).Some? && Issuer(recs, x).value in ids
    requires id in ids
    ensures !ChainReaches(recs, files, id, n)
    decreases n
  {
    if n == 0 {
    } else {
      TrappedNeverChains(recs, files, ids, Issuer(recs, id).value, n - 1);
    }
  }

  // ----- The state of a walk -----

  /** Every id that any record can match. */
  function KnownIds(recs: seq<Record>): set<string> {
    {CA_ROOT, CA_INTERMEDIATE} + set r | r in recs :: r.caId
  }

  /** A walk from start stands at id and has marked the ids before it. */
  ghost predicate Walking(recs: seq<Record>, start: string, id: string, seen: set<string>, trail: seq<string>) {
    && Trail(recs, trail) && trail[0] == start && trail[|trail| - 1] == id
    && seen == set k | 0 <= k < |trail| - 1 :: trail[k]
  }

  lemma WalkOn(recs: seq<Record>, start: string, id: string, seen: set<string>, trail: seq<string>)
    requires Walking(recs, start, id, seen, trail) && Issuer(recs, id).Some?
    ensures var up := Issuer(recs, id).value;
            Walking(recs, start, up, seen + {id}, trail + [up])
  {
    var trail' := trail + [Issuer(recs, id).value];
    forall x
      ensures x in seen + {id} <==> exists k :: 0 <= k < |trail'| - 1 && trail'[k] == x
    {
      if x in seen {
        var k :| 0 <= k < |trail| - 1 && trail[k] == x;
        assert trail'[k] == x;
      }
      assert trail'[|trail| - 1] == id;
    }
  }

  /** Standing on a marked id means that the marked ids form a trap. */
  lemma LoopIsTrap(recs: seq<Record>, start: string, id: string, seen: set<string>, trail: seq<string>)
    requires Walking(recs, start, id, seen, trail) && id in seen
    ensures !ReachesSometime(recs, id)
    ensures forall x :: x in seen ==> Issuer(recs, x).Some? && Issuer(recs, x).value in seen
  {
    forall x | x in seen
      ensures Issuer(recs, x).Some? && Issuer(recs, x).value in seen
    {
      var k :| 0 <= k < |trail| - 1 && trail[k] == x;
      if k + 1 < |trail| - 1 {
        assert trail[k + 1] in seen;
      }
    }
    forall n: nat
      ensures !ReachesRoot(recs, id, n)
    {
      TrappedNeverReaches(recs, seen, id, n);
    }
  }

  lemma LoopBreaksChain<Cert>(
    recs: seq<Record>, files: map<string, Cert>, start: string, id: string, seen: set<string>, trail: seq<string>)
    requires Walking(recs, start, id, seen, trail) && id in seen
    ensures !ChainReachesSometime(recs, files, id)
  {
    LoopIsTrap(recs, start, id, seen, trail);
    forall n: nat
      ensures !ChainReaches(recs, files, id, n)
    {
      TrappedNeverChains(recs, files, seen, id, n);
    }
  }

  lemma MoreSeen(recs: seq<Record>, id: string, seen: set<string>)
    requires id !in seen && Issuer(recs, id).Some?
    ensures |KnownIds(recs) - (seen + {id})| < |KnownIds(recs) - seen|
  {
    assert id in KnownIds(recs);
    assert KnownIds(recs) - (seen + {id}) == (KnownIds(recs) - seen) - {id};
  }

  // ----- CAPath -----

  /** The path to id, root first, each one's issuer just before it. */
  ghost predicate IsPath(recs: seq<Record>, path: seq<Record>, id: string) {
    && path != []
    && Lookup(recs, CA_ROOT) == Some(path[0])
    && Lookup(recs, id) == Some(path[|path| - 1])
    && forall k :: 0 < k < |path| ==> Lookup(recs, path[k].issuerId) == Some(path[k - 1])
  }

  /** path holds the records of the trail's ids, last id first. */
  ghost predicate RecordsOf(recs: seq<Record>, trail: seq<string>, path: seq<Record>) {
    && |path| <= |trail|
    && forall k :: 0 <= k < |path| ==> Lookup(recs, trail[k]) == Some(path[|path| - 1 - k])
  }

  lemma RecordsOfMore(recs: seq<Record>, trail: seq<string>, path: seq<Record>)
    requires RecordsOf(recs, trail, path) && |path| == |trail| - 1 && Lookup(recs, trail[|trail| - 1]).Some?
    ensures RecordsOf(recs, trail, [Lookup(recs, trail[|trail| - 1]).value] + path)
  {
    var path' := [Lookup(recs, trail[|trail| - 1]).value] + path;
    forall k | 0 <= k < |path'|
      ensures Lookup(recs, trail[k]) == Some(path'[|path'| - 1 - k])
    {
      if k < |path| {
        assert path'[|path'| - 1 - k] == path[|path| - 1 - k];
      }
    }
  }

  lemma RecordsArePath(recs: seq<Record>, trail: seq<string>, path: seq<Record>)
    requires Trail(recs, trail) && RecordsOf(recs, trail, path) && |path| == |trail| && trail[|trail| - 1] == CA_ROOT
    ensures IsPath(recs, path, trail[0])
  {
    forall j | 0 < j < |path|
      ensures Lookup(recs, path[j].issuerId) == Some(path[j - 1])
    {
      var k := |path| - 1 - j;
      assert Lookup(recs, trail[k]) == Some(path[|path| - 1 - k]);
      assert Lookup(recs, trail[k + 1]) == Some(path[|path| - 1 - (k + 1)]);
      assert Issuer(recs, trail[k]) == Some(trail[k + 1]);
    }
  }

  /**
    CAPath: the path to caID, root first.  It succeeds exactly when following
    issuers reaches the root, and then returns that path.
    */
  method CAPath(recs: seq<Record>, caID: string) returns (res: Result<seq<Record>, string>)
    ensures res.Ok? <==> ReachesSometime(recs, caID)
    ensures res.Ok? ==> IsPath(recs, res.value, caID)
  {
    hide ReachesSometime, Walking, RecordsOf, IsPath, KnownIds;
    var path: seq<Record> := [];
    var seen: set<string> := {};
    var id := caID;
    ghost var trail := [caID];
    WalkStart(recs, caID);
    while true
      invariant Walking(recs, caID, id, seen, trail)
      invariant RecordsOf(recs, trail, path) && |path| == |trail| - 1 && trail[|path|] == id
      invariant ReachesSometime(recs, caID) == ReachesSometime(recs, id)
      decreases |KnownIds(recs) - seen|
    {
      if id in seen {
        LoopIsTrap(recs, caID, id, seen, trail);
        return Err("CA chain loop detected");
      }
      var rec := Lookup(recs, id);
      if rec.None? {
        Unreachable(recs, id);
        return Err("CA has no record");
      }
      RecordsOfMore(recs, trail, path);
      path := [rec.value] + path;
      if id == CA_ROOT {
        WalkEnd(recs, caID, seen, trail, path);
        return Ok(path);
      }
      ReachesStep(recs, id);
      WalkOn(recs, caID, id, seen, trail);
      MoreSeen(recs, id, seen);
      RecordsOfLonger(recs, trail, path, rec.value.issuerId);
      seen := seen + {id};
      id := rec.value.issuerId;
      trail := trail + [id];
    }
  }

  lemma WalkStart(recs: seq<Record>, start: string)
    ensures Walking(recs, start, start, {}, [start]) && RecordsOf(recs, [start], [])
  {
  }

  lemma Unreachable(recs: seq<Record>, id: string)
    requires Lookup(recs, id).None?
    ensures !ReachesSometime(recs, id)
  {
  }

  lemma RecordsOfLonger(recs: seq<Record>, trail: seq<string>, path: seq<Record>, id: string)
    requires RecordsOf(recs, trail, path)
    ensures RecordsOf(recs, trail + [id], path)
  {
  }

  lemma WalkEnd(recs: seq<Record>, start: string, seen: set<string>, trail: seq<string>, path: seq<Record>)
    requires Walking(recs, start, CA_ROOT, seen, trail) && RecordsOf(recs, trail, path) && |path| == |trail|
    requires Lookup(recs, CA_ROOT).Some?
    ensures ReachesSometime(recs, CA_ROOT) && IsPath(recs, path, start)
  {
    assert ReachesRoot(recs, CA_ROOT, 0);
    RecordsArePath(recs, trail, path);
  }

  // ----- IssuerChainPEM -----

  /** chain holds the certificates of the trail's ids, in order. */
  ghost predicate FilesOf<Cert>(files: map<string, Cert>, trail: seq<string>, chain: seq<Cert>) {
    |chain| <= |trail| && forall k :: 0 <= k < |chain| ==> trail[k] in files && chain[k] == files[trail[k]]
  }

  /** The certificates of id and of its ancestors, the root's last. */
  ghost predicate IsChain<Cert>(recs: seq<Record>, files: map<string, Cert>, chain: seq<Cert>, id: string) {
    exists trail ::
      && Trail(recs, trail) && trail[0] == id && trail[|trail| - 1] == CA_ROOT
      && |chain| == |trail| && FilesOf(files, trail, chain)
  }

  /** The root ends every trail, so there is only one from an id to the root. */
  lemma {:induction false} TrailsAgree(recs: seq<Record>, s: seq<string>, t: seq<string>)
    requires Trail(recs, s) && Trail(recs, t) && s[0] == t[0]
    requires s[|s| - 1] == CA_ROOT && t[|t| - 1] == CA_ROOT
    ensures s == t
  {
    assert |s| > 1 ==> Issuer(recs, s[0]) == Some(s[1]);
    assert |t| > 1 ==> Issuer(recs, t[0]) == Some(t[1]);
    if |s| == 1 || |t| == 1 {
      assert s == [CA_ROOT] == t;
    } else {
      forall k | 0 <= k < |s| - 2
        ensures Issuer(recs, s[1..][k]) == Some(s[1..][k + 1])
      {
        assert s[1..][k] == s[k + 1];
      }
      forall k | 0 <= k < |t| - 2
        ensures Issuer(recs, t[1..][k]) == Some(t[1..][k + 1])
      {
        assert t[1..][k] == t[k + 1];
      }
      TrailsAgree(recs, s[1..], t[1..]);
      assert s == [s[0]] + s[1..] && t == [t[0]] + t[1..];
    }
  }

  lemma ChainIsUnique<Cert>(recs: seq<Record>, files: map<string, Cert>, a: seq<Cert>, b: seq<Cert>, id: string)
    requires IsChain(recs, files, a, id) && IsChain(recs, files, b, id)
    ensures a == b
  {
    var s :| Trail(recs, s) && s[0] == id && s[|s| - 1] == CA_ROOT && |a| == |s| && FilesOf(files, s, a);
    var t :| Trail(recs, t) && t[0] == id && t[|t| - 1] == CA_ROOT && |b| == |t| && FilesOf(files, t, b);
    TrailsAgree(recs, s, t);
  }

  lemma ChainCons<Cert>(recs: seq<Record>, files: map<string, Cert>, chain: seq<Cert>, id: string)
    requires id in files && Issuer(recs, id).Some? && IsChain(recs, files, chain, Issuer(recs, id).value)
    ensures IsChain(recs, files, [files[id]] + chain, id)
  {
    var t :| Trail(recs, t) && t[0] == Issuer(recs, id).value && t[|t| - 1] == CA_ROOT
             && |chain| == |t| && FilesOf(files, t, chain);
    var more := [id] + t;
    assert Trail(recs, more) && FilesOf(files, more, [files[id]] + chain);
  }

  lemma {:induction false} ReachedChain<Cert>(recs: seq<Record>, files: map<string, Cert>, id: string, n: nat)
    returns (chain: seq<Cert>)
    requires ChainReaches(recs, files, id, n)
    ensures IsChain(recs, files, chain, id)
    decreases n
  {
    if n == 0 {
      chain := [files[id]];
      assert Trail(recs, [id]) && FilesOf(files, [id], chain);
    } else {
      chain := ReachedChain(recs, files, Issuer(recs, id).value, n - 1);
      ChainCons(recs, files, chain, id);
      chain := [files[id]] + chain;
    }
  }

  /** A chain stays one when its CAs keep their issuers and certificates. */
  lemma ChainKept<Cert>(
    recs: seq<Record>, files: map<string, Cert>, more: seq<Record>, added: map<string, Cert>,
    chain: seq<Cert>, id: string)
    requires IsChain(recs, files, chain, id)
    requires forall x :: x in files ==> Issuer(more, x) == Issuer(recs, x) && x in added && added[x] == files[x]
    ensures IsChain(more, added, chain, id)
  {
    var t :| Trail(recs, t) && t[0] == id && t[|t| - 1] == CA_ROOT && |chain| == |t| && FilesOf(files, t, chain);
    assert Trail(more, t) && FilesOf(added, t, chain);
  }

  /** IssuerChainPEM as a list of certificates: it succeeds exactly on complete chains. */
  method IssuerChain<Cert>(recs: seq<Record>, files: map<string, Cert>, issuerID: string)
    returns (res: Result<seq<Cert>, string>)
    ensures res.Ok? <==> ChainReachesSometime(recs, files, issuerID)
    ensures res.Ok? ==> IsChain(recs, files, res.value, issuerID)
  {
    hide ChainReachesSometime, ReachesSometime, Walking, KnownIds;
    var chain: seq<Cert> := [];
    var currentID := issuerID;
    var seen: set<string> := {};
    ghost var trail := [issuerID];
    WalkStart(recs, issuerID);
    while true
      invariant Walking(recs, issuerID, currentID, seen, trail)
      invariant FilesOf(files, trail, chain) && |chain| == |trail| - 1 && trail[|chain|] == currentID
      invariant ChainReachesSometime(recs, files, issuerID) == ChainReachesSometime(recs, files, currentID)
      decreases |KnownIds(recs) - seen|
    {
      if currentID in seen {
        LoopBreaksChain(recs, files, issuerID, currentID, seen, trail);
        return Err("CA chain loop detected");
      }
      if currentID !in files {
        ChainBroken(recs, files, currentID);
        return Err("loading CA");
      }
      chain := chain + [files[currentID]];
      if currentID == CA_ROOT {
        ChainEnd(recs, files, issuerID, seen, trail, chain);
        return Ok(chain);
      }
      var rec := Lookup(recs, currentID);
      if rec.None? || rec.value.issuerId == "" {
        ChainBroken(recs, files, currentID);
        return Err("CA has no record or no issuer");
      }
      ChainStep(recs, files, currentID);
      WalkOn(recs, issuerID, currentID, seen, trail);
      MoreSeen(recs, currentID, seen);
      seen := seen + {currentID};
      currentID := rec.value.issuerId;
      trail := trail + [currentID];
    }
  }

  lemma ChainBroken<Cert>(recs: seq<Record>, files: map<string, Cert>, id: string)
    requires id !in files || (id != CA_ROOT && (Issuer(recs, id).None? || Issuer(recs, id).value == ""))
    ensures !ChainReachesSometime(recs, files, id)
  {
  }

  lemma ChainEnd<Cert>(
    recs: seq<Record>, files: map<string, Cert>, start: string, seen: set<string>, trail: seq<string>, chain: seq<Cert>)
    requires Walking(recs, start, CA_ROOT, seen, trail) && FilesOf(files, trail, chain) && |chain| == |trail|
    requires CA_ROOT in files
    ensures ChainReachesSometime(recs, files, CA_ROOT) && IsChain(recs, files, chain, start)
  {
    assert ChainReaches(recs, files, CA_ROOT, 0);
  }
}
