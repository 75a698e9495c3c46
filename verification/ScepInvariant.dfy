/**
  What holds of the SCEP journal, the certificate index, the PEM files, the trash and
  the history of the store between any two storage steps, and why each step keeps it.
  */
module ScepInvariant {
  import opened Wrappers
  import opened CertIndex
  import opened ScepNames
  import opened ScepState
  import Validator

  // ----- The history -----

  /** One committed issuance: the journal write that carried it took effect. */
  datatype Commit = Commit(hash: string, der: Cert, record: Record, used: int)

  /** A SUCCESS reply to a request with this challenge. */
  datatype Grant = Grant(hash: string, der: Cert)

  /**
    commits by serial; grants; serials that DeleteCert or DeleteCA took out of the index;
    and every challenge hash ever created, with whether it is a per-device one.
    */
  datatype History = History(
    commits: map<string, Commit>, grants: set<Grant>, deleted: set<string>, hashes: map<string, bool>)

  /** text is how addresses are written. */
  datatype World = World(
    journal: State, index: seq<Record>, pems: map<string, Cert>, trash: seq<Record>, h: History, clock: int,
    text: Addr -> string)

  function CommitOf(e: Entry): Commit {
    Commit(e.hash, e.iss.der, e.iss.record, e.iss.used)
  }

  function EntrySerial(e: Entry): string {
    e.iss.record.serial
  }

  /** Serials of committed issuances whose publication the journal does not record. */
  function Pending(st: State): set<string> {
    set e | e in Entries(st) && !e.iss.published :: EntrySerial(e)
  }

  // ----- The invariant -----

  /** The journal agrees with what was committed. */
  ghost predicate Logged(st: State, h: History) {
    forall e :: e in Entries(st) ==>
      && EntrySerial(e) in h.commits
      && h.commits[EntrySerial(e)] == CommitOf(e)
  }

  ghost predicate CommitsOk(h: History) {
    && (forall s :: s in h.commits ==> CommitOk(h, s))
    && OncePerDevice(h)
    && (forall g :: g in h.grants ==> GrantOk(h, g))
  }

  /** The record of a certificate issued at a time, all of it, and backup validation takes it. */
  ghost predicate Describes(r: Record, der: Cert, used: int) {
    && r == Record(der.serial, Csr, der.issuerId, "", false, used - 300, der.notAfter, false, false, "scep")
    && (ValidSerial(r.serial) && Validator.BackupCaId(r.issuerId) ==> Validator.RecordOk(r))
  }

  ghost predicate CommitOk(h: History, s: string)
    requires s in h.commits
  {
    && h.commits[s].record.serial == s && h.commits[s].der.serial == s && h.commits[s].hash in h.hashes
    && Describes(h.commits[s].record, h.commits[s].der, h.commits[s].used)
  }

  ghost predicate OncePerDevice(h: History) {
    forall s, t :: s in h.commits && t in h.commits && s != t ==> MayCoexist(h, h.commits[s].hash, h.commits[t].hash)
  }

  /** Two certificates for one challenge are possible only if it is shared. */
  predicate MayCoexist(h: History, hash1: string, hash2: string) {
    hash1 == hash2 && hash1 in h.hashes ==> !h.hashes[hash1]
  }

  ghost predicate GrantOk(h: History, g: Grant) {
    && g.der.serial in h.commits
    && h.commits[g.der.serial].hash == g.hash && h.commits[g.der.serial].der == g.der
  }

  /** A per-device challenge that looks unused has no certificate. */
  ghost predicate UnusedClean(st: State, h: History) {
    forall c, s :: c in st.challenges && c.issue.None? && s in h.commits ==> h.commits[s].hash != c.hash
  }

  /** A committed issuance is pending in the journal, in the index, or in the trash. */
  ghost predicate NoLoss(w: World) {
    forall s :: s in w.h.commits ==> s in Pending(w.journal) || s in Serials(w.index) || s in Serials(w.trash)
  }

  /** A deleted certificate is in the trash and nowhere it could come back from. */
  ghost predicate NoReturn(w: World) {
    forall s :: s in w.h.deleted ==> s in Serials(w.trash) && s !in Serials(w.index) && s !in Pending(w.journal)
  }

  /** Index records and PEM files of committed issuances are projections of the commit. */
  ghost predicate Projected(w: World) {
    && (forall r :: r in w.index && r.serial in w.h.commits ==> r == w.h.commits[r.serial].record)
    && (forall s :: s in w.pems && s in w.h.commits ==> w.pems[s] == w.h.commits[s].der)
  }

  ghost predicate HashesOk(st: State, h: History) {
    && DistinctHashes(st)
    && (forall c :: c in st.challenges ==> c.hash in h.hashes && h.hashes[c.hash])
    && (forall s :: s in st.shared ==> s.hash in h.hashes && !h.hashes[s.hash])
  }

  predicate SameOrigin(a: SharedIssuance, b: SharedIssuance) {
    && a.iss.transaction == b.iss.transaction && a.iss.requestHash == b.iss.requestHash
    && a.iss.signerHash == b.iss.signerHash && a.source == b.source
  }

  /** Two issuances of a shared challenge: a repeated request a week apart, a repeated identity ten minutes. */
  ghost predicate Spaced(a: SharedIssuance, b: SharedIssuance) {
    && (SameOrigin(a, b) ==> b.iss.used >= a.iss.used + RETENTION)
    && (a.identity == b.identity ==> b.iss.used >= a.iss.used + RATE_WINDOW)
  }

  ghost predicate AllSpaced(issued: seq<SharedIssuance>) {
    forall i, j :: 0 <= i < j < |issued| ==> Spaced(issued[i], issued[j])
  }

  /**
    Bound to its source: the only IP SAN is the source, inside the challenge's ranges, the
    DNS SANs end in the labels of its suffixes, and the identity is that of the names in the certificate.
    */
  ghost predicate Bound(s: Shared, i: SharedIssuance, clock: int, text: Addr -> string) {
    && i.iss.der.ips == [i.source] && InRanges(s.ranges, i.source) && i.iss.used <= clock
    && i.identity == Identity(text, i.source, i.iss.der.dns) && NoRepeats(i.iss.der.dns)
    && AllInDomain(i.iss.der.dns, s.suffixes)
  }

  ghost predicate SharedSound(s: Shared, clock: int, text: Addr -> string) {
    AllSpaced(s.issuances) && forall i :: i in s.issuances ==> Bound(s, i, clock, text)
  }

  ghost predicate SharedOk(st: State, clock: int, text: Addr -> string) {
    forall s :: s in st.shared ==> SharedSound(s, clock, text)
  }

  /** The identity that the rate limit of a shared challenge counts by, read off the certificate. */
  function CertIdentity(der: Cert, text: Addr -> string): string {
    if der.ips == [] then "" else Identity(text, der.ips[0], der.dns)
  }

  predicate Apart(used1: int, used2: int) {
    used1 + RATE_WINDOW <= used2 || used2 + RATE_WINDOW <= used1
  }

  /** All commits of one challenge and one identity, whether or not the journal still has them. */
  ghost predicate Paced(commits: map<string, Commit>, text: Addr -> string) {
    forall s, t :: s in commits && t in commits && s != t ==> PacedPair(commits[s], commits[t], text)
  }

  predicate PacedPair(a: Commit, b: Commit, text: Addr -> string) {
    a.hash == b.hash && CertIdentity(a.der, text) == CertIdentity(b.der, text) ==> Apart(a.used, b.used)
  }

  /** What the rate limit needs to know of a commit is still in the journal's list. */
  ghost predicate Remembered(issued: seq<SharedIssuance>, c: Commit, text: Addr -> string) {
    exists i :: i in issued && i.identity == CertIdentity(c.der, text) && c.used <= i.iss.used
  }

  ghost predicate Remembers(ss: seq<Shared>, commits: map<string, Commit>, text: Addr -> string) {
    forall x, s :: x in ss && s in commits && commits[s].hash == x.hash ==> Remembered(x.issuances, commits[s], text)
  }

  ghost predicate Inv(w: World) {
    && Logged(w.journal, w.h) && CommitsOk(w.h) && UnusedClean(w.journal, w.h)
    && NoLoss(w) && NoReturn(w) && Projected(w)
    && HashesOk(w.journal, w.h) && SharedOk(w.journal, w.clock, w.text)
    && Paced(w.h.commits, w.text) && Remembers(w.journal.shared, w.h.commits, w.text)
  }

  /** Histories only grow, and a certificate once deleted stays deleted. */
  ghost predicate Later(a: History, b: History) {
    && (forall s :: s in a.commits ==> s in b.commits && b.commits[s] == a.commits[s])
    && a.grants <= b.grants && a.deleted <= b.deleted
    && (forall x :: x in a.hashes ==> x in b.hashes && b.hashes[x] == a.hashes[x])
  }

  /** Serials in use anywhere; a fresh random serial is none of them. */
  function Known(w: World): set<string> {
    w.h.commits.Keys + w.pems.Keys + Serials(w.index) + Serials(w.trash)
  }

  // ----- What the invariant means -----

  /**
    Exactly once: all SUCCESS replies for one per-device challenge carry the same
    certificate, which is also the one in its journal entry, and any index record with
    that serial is the committed one.
    */
  lemma ExactlyOnce(w: World, g1: Grant, g2: Grant)
    requires Inv(w) && g1 in w.h.grants && g2 in w.h.grants
    requires g1.hash == g2.hash && g1.hash in w.h.hashes && w.h.hashes[g1.hash]
    ensures g1.der == g2.der
    ensures forall c :: c in w.journal.challenges && c.hash == g1.hash ==>
              c.issue.Some? && c.issue.value.der == g1.der && c.issue.value.record.serial == g1.der.serial
    ensures forall r :: r in w.index && r.serial == g1.der.serial ==> r == w.h.commits[g1.der.serial].record
  {
    forall c | c in w.journal.challenges && c.hash == g1.hash
      ensures c.issue.Some? && c.issue.value.der == g1.der && c.issue.value.record.serial == g1.der.serial
    {
      if c.issue.Some? {
        assert Entry(c.hash, c.issue.value) in Entries(w.journal);
      }
    }
  }

  /** The index says of an enrolled certificate what the certificate says, in a record that a backup restores. */
  lemma EnrolledRecordIsAccepted(w: World, r: Record)
    requires Inv(w) && r in w.index && r.serial in w.h.commits
    ensures var der := w.h.commits[r.serial].der;
            && r.serial == der.serial && r.issuerId == der.issuerId && r.notAfter == der.notAfter
            && r.notBefore == w.h.commits[r.serial].used - 300 && r.provenance == "scep"
            && (r.serial in w.pems ==> w.pems[r.serial] == der)
            && (ValidSerial(r.serial) && Validator.BackupCaId(r.issuerId) ==> Validator.RecordOk(r))
  {
    assert CommitOk(w.h, r.serial);
  }

  /** No resurrection: what was deleted can neither be published again nor be returned by a retry. */
  lemma DeletedStaysOut(w: World, serial: string)
    requires Inv(w) && serial in w.h.deleted
    ensures serial !in Serials(w.index) && serial !in Pending(w.journal) && serial in Serials(w.trash)
    ensures forall q, now, env ::
            var d := Decide(Publish(w.journal), Serials(w.index) + Pending(w.journal), q, now, env);
                                  d.Return? ==> d.der.serial != serial
  {
    var serials := Serials(w.index) + Pending(w.journal);
    forall q, now, env
      ensures var d := Decide(Publish(w.journal), serials, q, now, env); d.Return? ==> d.der.serial != serial
    {
      var d := Decide(Publish(w.journal), serials, q, now, env);
      if d.Return? {
        var e := ReturnedEntry(Publish(w.journal), serials, q, now, env);
        PublishEntries(w.journal);
        var o :| o in Entries(w.journal) && PublishEntry(o) == e;
        assert EntrySerial(o) in w.h.commits;
      }
    }
  }

  /** A returned certificate is that of a journal entry for the request's challenge whose serial is indexed. */
  lemma ReturnedEntry(st: State, serials: set<string>, q: Request, now: int, env: Env) returns (e: Entry)
    requires Decide(st, serials, q, now, env).Return?
    ensures e in Entries(st) && e.hash == q.challenge && EntrySerial(e) in serials
    ensures e.iss.der == Decide(st, serials, q, now, env).der
  {
    var i := FindDevice(st.challenges, q.challenge, st.ca);
    if i.Some? {
      var c := st.challenges[i.value];
      e := Entry(c.hash, c.issue.value);
      assert e in DeviceEntries(st.challenges);
    } else {
      var k := FindShared(st.shared, q.challenge, st.ca);
      var s := st.shared[k.value];
      var x := FirstRetry(s.issuances, q, q.source.value, now).value;
      e := Entry(s.hash, x.iss);
      assert e in IssuanceEntries(s.hash, s.issuances);
    }
  }

  /** At any time at most one issuance younger than seven days answers a given request from a given source. */
  lemma RetryIsUnique(w: World, s: Shared, q: Request, src: Addr, now: int, a: SharedIssuance, b: SharedIssuance)
    requires Inv(w) && s in w.journal.shared && now >= w.clock
    requires a in s.issuances && b in s.issuances && IsRetry(a, q, src, now) && IsRetry(b, q, src, now)
    ensures a == b
  {
    assert SharedSound(s, w.clock, w.text) && Bound(s, a, w.clock, w.text) && Bound(s, b, w.clock, w.text);
    var i :| 0 <= i < |s.issuances| && s.issuances[i] == a;
    var j :| 0 <= j < |s.issuances| && s.issuances[j] == b;
    EarlierIsOld(s.issuances, i, j, q, src, now);
    EarlierIsOld(s.issuances, j, i, q, src, now);
  }

  lemma EarlierIsOld(all: seq<SharedIssuance>, i: nat, j: nat, q: Request, src: Addr, now: int)
    requires AllSpaced(all) && i < |all| && j < |all| && all[j].iss.used <= now
    requires IsRetry(all[i], q, src, now) && IsRetry(all[j], q, src, now)
    ensures j <= i
  {
    var apart := Spaced(all[i], all[j]);
  }

  /** Two issuances of one identity are at least ten minutes apart, whichever came first. */
  lemma RateLimitHolds(w: World, s: Shared, i: nat, j: nat)
    requires Inv(w) && s in w.journal.shared && i < |s.issuances| && j < |s.issuances| && i != j
    requires s.issuances[i].identity == s.issuances[j].identity
    ensures s.issuances[i].iss.used >= s.issuances[j].iss.used + RATE_WINDOW
         || s.issuances[j].iss.used >= s.issuances[i].iss.used + RATE_WINDOW
  {
    assert SharedSound(s, w.clock, w.text);
    if i < j {
      assert Spaced(s.issuances[i], s.issuances[j]);
    } else {
      assert Spaced(s.issuances[j], s.issuances[i]);
    }
  }

  /** So two certificates of one shared challenge with the same addresses and the same set of names are. */
  lemma SameCertificateIsLimited(w: World, s: Shared, i: nat, j: nat)
    requires Inv(w) && s in w.journal.shared && i < |s.issuances| && j < |s.issuances| && i != j
    requires s.issuances[i].iss.der.ips == s.issuances[j].iss.der.ips
    requires NameSet(s.issuances[i].iss.der.dns) == NameSet(s.issuances[j].iss.der.dns)
    ensures s.issuances[i].iss.used >= s.issuances[j].iss.used + RATE_WINDOW
         || s.issuances[j].iss.used >= s.issuances[i].iss.used + RATE_WINDOW
  {
    var a, b := s.issuances[i], s.issuances[j];
    assert SharedSound(s, w.clock, w.text) && Bound(s, a, w.clock, w.text) && Bound(s, b, w.clock, w.text);
    assert a.source == [a.source][0] && b.source == [b.source][0];
    SameNamesSortAlike(a.iss.der.dns, b.iss.der.dns);
    RateLimitHolds(w, s, i, j);
  }

  /**
    And so are any two certificates ever committed for one challenge with the same address
    and names, however much of the journal has been pruned since.
    */
  lemma RateLimitIsPermanent(w: World, s: string, t: string)
    requires Inv(w) && s in w.h.commits && t in w.h.commits && s != t && w.h.commits[s].hash == w.h.commits[t].hash
    requires w.h.commits[s].der.ips == w.h.commits[t].der.ips
    requires multiset(w.h.commits[s].der.dns) == multiset(w.h.commits[t].der.dns)
    ensures Apart(w.h.commits[s].used, w.h.commits[t].used)
  {
    var a, b := w.h.commits[s], w.h.commits[t];
    SortSorts(a.der.dns);
    SortSorts(b.der.dns);
    AscendingIsCanonical(Sort(a.der.dns), Sort(b.der.dns));
    assert PacedPair(a, b, w.text);
  }

  /** A retry within seven days, while the challenge is active and the certificate indexed, gets the same DER. */
  lemma RetryReturnsSame(w: World, s: Shared, i: SharedIssuance, serials: set<string>, q: Request, now: int, env: Env)
    requires Inv(w) && s in w.journal.shared && i in s.issuances && now >= w.clock
    requires SameRequest(i.iss, q) && q.source == Some(i.source) && now < i.iss.used + RETENTION
    requires !s.revoked && now <= s.expires && i.iss.record.serial in serials
    ensures DecideShared(s, serials, q, now, env) == Return(i.iss.der)
    ensures i.iss.der.ips == [i.source] && InRanges(s.ranges, i.source)
  {
    assert SharedSound(s, w.clock, w.text) && Bound(s, i, w.clock, w.text);
    var first := FirstRetry(s.issuances, q, i.source, now);
    RetryIsUnique(w, s, q, i.source, now, first.value, i);
  }

  // ----- Pruning and publishing keep the shared part -----

  lemma {:induction false} PruneKeepsSpaced(all: seq<SharedIssuance>, from: nat, now: int)
    requires from <= |all| && AllSpaced(all)
    ensures AllSpaced(PruneIssuances(all, from, now))
    decreases |all| - from
  {
    hide Spaced, KeepIssuance;
    if from == |all| {
    } else {
      PruneKeepsSpaced(all, from + 1, now);
      var rest := PruneIssuances(all, from + 1, now);
      forall x | x in rest
        ensures Spaced(all[from], x)
      {
        PruneIssuancesMembers(all, from + 1, now, x);
      }
      if KeepIssuance(all, from, now) {
        SpacedCons(all[from], rest);
      } else {
        assert [] + rest == rest;
      }
    }
  }

  lemma SpacedCons(a: SharedIssuance, rest: seq<SharedIssuance>)
    requires AllSpaced(rest) && forall x :: x in rest ==> Spaced(a, x)
    ensures AllSpaced([a] + rest)
  {
    hide Spaced;
    var all := [a] + rest;
    forall i, j | 0 <= i < j < |all|
      ensures Spaced(all[i], all[j])
    {
      if i > 0 {
        assert Spaced(rest[i - 1], rest[j - 1]);
      }
    }
  }

  lemma PruneKeepsSharedOk(st: State, clock: int, text: Addr -> string, now: int)
    requires SharedOk(st, clock, text)
    ensures SharedOk(Prune(st, now), clock, text)
  {
    hide AllSpaced;
    forall s | s in Prune(st, now).shared
      ensures SharedSound(s, clock, text)
    {
      PruneSharedMembers(st.shared, now, s);
      var o :| o in st.shared && s == o.(issuances := PruneIssuances(o.issuances, 0, now));
      assert SharedSound(o, clock, text);
      PruneKeepsSpaced(o.issuances, 0, now);
      forall x | x in s.issuances
        ensures Bound(s, x, clock, text)
      {
        PruneIssuancesMembers(o.issuances, 0, now, x);
        assert Bound(o, x, clock, text);
      }
    }
  }

  /** Pruning keeps the newest issuance of each identity, which is what the rate limit asks for. */
  lemma PruneRemembers(ss: seq<Shared>, commits: map<string, Commit>, text: Addr -> string, now: int)
    requires Remembers(ss, commits, text)
    ensures Remembers(PruneShared(ss, now), commits, text)
  {
    forall x, s | x in PruneShared(ss, now) && s in commits && commits[s].hash == x.hash
      ensures Remembered(x.issuances, commits[s], text)
    {
      PruneSharedMembers(ss, now, x);
      var o :| o in ss && x == o.(issuances := PruneIssuances(o.issuances, 0, now));
      assert Remembered(o.issuances, commits[s], text);
      var i :| i in o.issuances && i.identity == CertIdentity(commits[s].der, text) && commits[s].used <= i.iss.used;
      var k :| 0 <= k < |o.issuances| && o.issuances[k] == i;
      var j := LatestOf(o.issuances, |o.issuances|, i.identity, k);
      assert Newest(o.issuances, j);
      PruneIssuancesMembers(o.issuances, 0, now, o.issuances[j]);
    }
  }

  /** The first of the latest issuances of an identity among the first n. */
  lemma {:induction false} LatestOf(all: seq<SharedIssuance>, n: nat, identity: string, k: nat) returns (j: nat)
    requires k < n <= |all| && all[k].identity == identity
    ensures j < n && all[j].identity == identity
    ensures forall x :: 0 <= x < n && all[x].identity == identity ==>
              if x < j then all[x].iss.used < all[j].iss.used else all[x].iss.used <= all[j].iss.used
    decreases n
  {
    if x :| 0 <= x < n - 1 && all[x].identity == identity {
      j := LatestOf(all, n - 1, identity, x);
      if all[n - 1].identity == identity && all[j].iss.used < all[n - 1].iss.used {
        j := n - 1;
      }
    } else {
      j := k;
    }
  }

  lemma PublishRemembers(st: State, commits: map<string, Commit>, text: Addr -> string)
    requires Remembers(st.shared, commits, text)
    ensures Remembers(Publish(st).shared, commits, text)
  {
    forall x, s | x in Publish(st).shared && s in commits && commits[s].hash == x.hash
      ensures Remembered(x.issuances, commits[s], text)
    {
      var k :| 0 <= k < |st.shared| && Publish(st).shared[k] == x;
      var o := st.shared[k];
      assert Remembered(o.issuances, commits[s], text);
      var i :| i in o.issuances && i.identity == CertIdentity(commits[s].der, text) && commits[s].used <= i.iss.used;
      var j :| 0 <= j < |o.issuances| && o.issuances[j] == i;
      assert x.issuances[j] in x.issuances;
    }
  }

  lemma PublishKeepsSharedOk(st: State, clock: int, text: Addr -> string)
    requires SharedOk(st, clock, text)
    ensures SharedOk(Publish(st), clock, text)
  {
    forall p | p in Publish(st).shared
      ensures SharedSound(p, clock, text)
    {
      var k :| 0 <= k < |st.shared| && Publish(st).shared[k] == p;
      PublishKeepsSharedSound(st.shared[k], clock, text);
    }
  }

  lemma PublishKeepsSharedSound(s: Shared, clock: int, text: Addr -> string)
    requires SharedSound(s, clock, text)
    ensures SharedSound(PublishShared(s), clock, text)
  {
    var p := PublishShared(s);
    forall i, j | 0 <= i < j < |p.issuances|
      ensures Spaced(p.issuances[i], p.issuances[j])
    {
      assert Spaced(s.issuances[i], s.issuances[j]);
    }
    forall x | x in p.issuances
      ensures Bound(p, x, clock, text)
    {
      var k :| 0 <= k < |p.issuances| && p.issuances[k] == x;
      assert Bound(s, s.issuances[k], clock, text);
    }
  }

  // ----- Storage steps -----

  /** A journal that loses no unpublished entry and invents none. */
  ghost predicate Continues(w: World, next: State) {
    && (forall e :: e in Entries(next) ==>
          e in Entries(w.journal) || (exists o :: o in Entries(w.journal) && e == PublishEntry(o)))
    && (forall e :: e in Entries(w.journal) && !e.iss.published ==>
          e in Entries(next) || EntrySerial(e) in Serials(w.index))
    && UnusedClean(next, w.h) && HashesOk(next, w.h) && SharedOk(next, w.clock, w.text)
    && Remembers(next.shared, w.h.commits, w.text)
  }

  lemma ReplaceJournal(w: World, next: State)
    requires Inv(w) && Continues(w, next)
    ensures Inv(w.(journal := next))
  {
    var w' := w.(journal := next);
    forall e | e in Entries(next)
      ensures EntrySerial(e) in w.h.commits && w.h.commits[EntrySerial(e)] == CommitOf(e)
      ensures !e.iss.published ==> EntrySerial(e) in Pending(w.journal)
    {
      if e !in Entries(w.journal) {
        var o :| o in Entries(w.journal) && e == PublishEntry(o);
      }
    }
    forall s | s in Pending(w.journal)
      ensures s in Pending(next) || s in Serials(w.index)
    {
      var e :| e in Entries(w.journal) && !e.iss.published && EntrySerial(e) == s;
    }
  }

  /** The commit of a new issuance: the journal gains one unpublished entry with a fresh serial. */
  lemma CommitIssuance(w: World, next: State, e: Entry)
    requires Inv(w) && Entries(next) == Entries(w.journal) + {e}
    requires !e.iss.published && EntrySerial(e) !in Known(w) && e.iss.der.serial == EntrySerial(e)
    requires Describes(e.iss.record, e.iss.der, e.iss.used)
    requires e.hash in w.h.hashes && HashesOk(next, w.h) && SharedOk(next, w.clock, w.text)
    requires Paced(Committed(w.h, e).commits, w.text) && Remembers(next.shared, Committed(w.h, e).commits, w.text)
    requires w.h.hashes[e.hash] ==> forall s :: s in w.h.commits ==> w.h.commits[s].hash != e.hash
    requires forall c :: c in next.challenges && c.issue.None? ==> c in w.journal.challenges && c.hash != e.hash
    ensures Inv(w.(journal := next, h := Committed(w.h, e)))
  {
    hide Inv;
    InvParts(w);
    PendingPlus(w.journal, next, e);
    CommitHistory(w.h, e);
    CommitLogged(w.journal, next, w.h, e);
    CommitProjected(w, e);
    InvFrom(w.(journal := next, h := Committed(w.h, e)));
  }

  function Committed(h: History, e: Entry): History {
    h.(commits := h.commits[EntrySerial(e) := CommitOf(e)])
  }

  lemma InvParts(w: World)
    requires Inv(w)
    ensures Logged(w.journal, w.h) && CommitsOk(w.h) && UnusedClean(w.journal, w.h)
    ensures NoLoss(w) && NoReturn(w) && Projected(w)
  {
  }

  lemma InvFrom(w: World)
    requires Logged(w.journal, w.h) && CommitsOk(w.h) && UnusedClean(w.journal, w.h)
    requires NoLoss(w) && NoReturn(w) && Projected(w)
    requires HashesOk(w.journal, w.h) && SharedOk(w.journal, w.clock, w.text)
    requires Paced(w.h.commits, w.text) && Remembers(w.journal.shared, w.h.commits, w.text)
    ensures Inv(w)
  {
  }

  lemma CommitHistory(h: History, e: Entry)
    requires CommitsOk(h) && EntrySerial(e) !in h.commits && e.iss.der.serial == EntrySerial(e) && e.hash in h.hashes
    requires Describes(e.iss.record, e.iss.der, e.iss.used)
    requires h.hashes[e.hash] ==> forall s :: s in h.commits ==> h.commits[s].hash != e.hash
    ensures CommitsOk(Committed(h, e))
  {
    var h' := Committed(h, e);
    forall s | s in h'.commits
      ensures CommitOk(h', s)
    {
      assert s != EntrySerial(e) ==> CommitOk(h, s);
    }
    forall g | g in h'.grants
      ensures GrantOk(h', g)
    {
      assert GrantOk(h, g);
    }
    forall s, t | s in h'.commits && t in h'.commits && s != t
      ensures MayCoexist(h', h'.commits[s].hash, h'.commits[t].hash)
    {
      if s in h.commits && t in h.commits {
        assert MayCoexist(h, h.commits[s].hash, h.commits[t].hash);
      }
    }
  }

  lemma CommitLogged(st: State, next: State, h: History, e: Entry)
    requires Logged(st, h) && Entries(next) == Entries(st) + {e} && EntrySerial(e) !in h.commits
    ensures Logged(next, Committed(h, e))
  {
    hide Entries;
  }

  lemma CommitProjected(w: World, e: Entry)
    requires Projected(w) && EntrySerial(e) !in Known(w)
    ensures Projected(w.(h := Committed(w.h, e)))
  {
    forall r | r in w.index
      ensures r.serial != EntrySerial(e)
    {
      assert r.serial in Serials(w.index);
    }
  }

  lemma PendingPlus(st: State, next: State, e: Entry)
    requires Entries(next) == Entries(st) + {e} && !e.iss.published
    ensures Pending(next) == Pending(st) + {EntrySerial(e)}
  {
    forall s
      ensures s in Pending(next) <==> s in Pending(st) || s == EntrySerial(e)
    {
      if s in Pending(st) {
        var x :| x in Entries(st) && !x.iss.published && EntrySerial(x) == s;
        assert x in Entries(next);
      }
      assert e in Entries(next);
    }
  }

  /** publish writes the PEM of a committed entry. */
  lemma WritePem(w: World, e: Entry)
    requires Inv(w) && e in Entries(w.journal)
    ensures Inv(w.(pems := w.pems[EntrySerial(e) := e.iss.der]))
  {
  }

  /** publish adds the record of a pending entry that the index does not have. */
  lemma AppendRecord(w: World, e: Entry)
    requires Inv(w) && e in Entries(w.journal) && !e.iss.published
    ensures Inv(w.(index := w.index + [e.iss.record]))
    ensures Serials(w.index + [e.iss.record]) == Serials(w.index) + {EntrySerial(e)}
  {
    var w' := w.(index := w.index + [e.iss.record]);
    SerialsAppend(w.index, e.iss.record);
    assert EntrySerial(e) in Pending(w.journal);
    forall r | r in w'.index && r.serial in w.h.commits
      ensures r == w.h.commits[r.serial].record
    {
    }
  }

  lemma SerialsConcat(a: seq<Record>, b: seq<Record>)
    ensures Serials(a + b) == Serials(a) + Serials(b)
  {
  }

  /** A record added by another operation under a serial used nowhere. */
  lemma AppendForeign(w: World, r: Record)
    requires Inv(w) && r.serial !in Known(w)
    ensures Inv(w.(index := w.index + [r]))
  {
    SerialsAppend(w.index, r);
    forall x | x in w.index + [r] && x.serial in w.h.commits
      ensures x == w.h.commits[x.serial].record
    {
    }
    assert forall s :: s in w.h.deleted ==> s in Known(w);
  }

  /** A trash index is written before anything is removed. */
  lemma AppendTrash(w: World, removed: seq<Record>)
    requires Inv(w)
    ensures Inv(w.(trash := w.trash + removed))
  {
    SerialsConcat(w.trash, removed);
  }

  lemma RemovePem(w: World, serial: string)
    requires Inv(w)
    ensures Inv(w.(pems := w.pems - {serial}))
  {
  }

  /** The last step of a deletion: the index without the records that are in the trash. */
  lemma DropRecords(w: World, gone: set<string>)
    requires Inv(w) && Pending(w.journal) == {} && gone <= Serials(w.trash)
    ensures Serials(Kept(w.index, gone)) == Serials(w.index) - gone
    ensures Inv(w.(index := Kept(w.index, gone), h := w.h.(deleted := w.h.deleted + gone)))
  {
    var kept := Kept(w.index, gone);
    forall r
      ensures r in kept <==> r in w.index && r.serial !in gone
    {
      KeptMembers(w.index, gone, r);
    }
    assert Serials(kept) == Serials(w.index) - gone by {
      forall s | s in Serials(w.index) && s !in gone
        ensures s in Serials(kept)
      {
        var r :| r in w.index && r.serial == s;
        assert r in kept;
      }
    }
  }

  lemma Reply(w: World, e: Entry)
    requires Inv(w) && e in Entries(w.journal)
    ensures Inv(w.(h := w.h.(grants := w.h.grants + {Grant(e.hash, e.iss.der)})))
  {
  }

  lemma Tick(w: World, clock: int)
    requires Inv(w) && clock >= w.clock
    ensures Inv(w.(clock := clock))
  {
    forall s | s in w.journal.shared
      ensures SharedSound(s, clock, w.text)
    {
      assert SharedSound(s, w.clock, w.text);
      forall i | i in s.issuances
        ensures Bound(s, i, clock, w.text)
      {
        assert Bound(s, i, w.clock, w.text);
      }
    }
  }

  lemma NewHash(w: World, hash: string, device: bool)
    requires Inv(w) && hash !in w.h.hashes
    ensures Inv(w.(h := w.h.(hashes := w.h.hashes[hash := device])))
  {
  }

  // ----- Journals that continue others -----

  lemma PublishContinues(w: World)
    requires Inv(w) && Pending(w.journal) <= Serials(w.index)
    ensures Continues(w, Publish(w.journal)) && Pending(Publish(w.journal)) == {}
  {
    var p := Publish(w.journal);
    PublishEntries(w.journal);
    PublishKeepsSharedOk(w.journal, w.clock, w.text);
    PublishRemembers(w.journal, w.h.commits, w.text);
    forall e | e in Entries(w.journal) && !e.iss.published
      ensures EntrySerial(e) in Serials(w.index)
    {
      assert EntrySerial(e) in Pending(w.journal);
    }
    PublishKeepsHashes(w.journal, w.h);
  }

  lemma PublishKeepsHashes(st: State, h: History)
    requires HashesOk(st, h) && UnusedClean(st, h)
    ensures HashesOk(Publish(st), h) && UnusedClean(Publish(st), h)
  {
    var p := Publish(st);
    forall c | c in p.challenges
      ensures exists o :: o in st.challenges && c == PublishChallenge(o)
    {
      var k :| 0 <= k < |p.challenges| && p.challenges[k] == c;
      assert st.challenges[k] in st.challenges;
    }
    forall s | s in p.shared
      ensures exists o :: o in st.shared && s == PublishShared(o)
    {
      var k :| 0 <= k < |p.shared| && p.shared[k] == s;
      assert st.shared[k] in st.shared;
    }
  }

  /** A journal without pending issuances is its own publication. */
  lemma NothingPending(st: State)
    requires Pending(st) == {}
    ensures Publish(st) == st
  {
    assert forall e :: e in Entries(st) && !e.iss.published ==> EntrySerial(e) in Pending(st);
    forall k | 0 <= k < |st.challenges|
      ensures PublishChallenge(st.challenges[k]) == st.challenges[k]
    {
      var c := st.challenges[k];
      if c.issue.Some? {
        assert Entry(c.hash, c.issue.value) in Entries(st);
      }
    }
    forall k | 0 <= k < |st.shared|
      ensures PublishShared(st.shared[k]) == st.shared[k]
    {
      var s := st.shared[k];
      forall j | 0 <= j < |s.issuances|
        ensures s.issuances[j].iss.published
      {
        assert Entry(s.hash, s.issuances[j].iss) in IssuanceEntries(s.hash, s.issuances);
        assert Entry(s.hash, s.issuances[j].iss) in Entries(st);
      }
    }
  }
}
