/**
  The SCEP journal as a value: challenges, committed issuances, pruning, and the
  decision that an enrollment request gets from a given journal and index.
  */
module ScepState {
  import opened Wrappers
  import opened CertIndex
  import opened ScepNames
  import CaTree

  const RETENTION: int := 7 * 86400
  const RATE_WINDOW: int := 600

  /** An issued certificate, as far as its contents matter here. */
  datatype Cert = Cert(serial: string, issuerId: string, cn: string, dns: seq<string>, ips: seq<Addr>, notAfter: int)

  datatype Issuance = Issuance(
    used: int, transaction: string, requestHash: string, signerHash: string,
    der: Cert, record: Record, published: bool)

  /** A per-device challenge; issue is None while it is unused. */
  datatype Challenge = Challenge(
    hash: string, ca: string, profileOk: bool, dns: seq<string>, ips: seq<Addr>,
    days: int, expires: int, revoked: bool, issue: Option<Issuance>)

  datatype SharedIssuance = SharedIssuance(iss: Issuance, identity: string, source: Addr)

  datatype Shared = Shared(
    hash: string, ca: string, ranges: seq<Prefix>, suffixes: seq<string>,
    days: int, expires: int, revoked: bool, issuances: seq<SharedIssuance>)

  /** scep.json. */
  datatype State = State(ca: string, challenges: seq<Challenge>, shared: seq<Shared>)

  ghost predicate DistinctDevices(cs: seq<Challenge>) {
    forall i, j :: 0 <= i < j < |cs| ==> cs[i].hash != cs[j].hash
  }

  ghost predicate DistinctShared(ss: seq<Shared>) {
    forall i, j :: 0 <= i < j < |ss| ==> ss[i].hash != ss[j].hash
  }

  /** Challenge hashes are random and never reused. */
  ghost predicate DistinctHashes(st: State) {
    && DistinctDevices(st.challenges) && DistinctShared(st.shared)
    && (forall c, s :: c in st.challenges && s in st.shared ==> c.hash != s.hash)
  }

  // ----- Committed issuances -----

  datatype Entry = Entry(hash: string, iss: Issuance)

  function DeviceEntries(cs: seq<Challenge>): set<Entry> {
    set c | c in cs && c.issue.Some? :: Entry(c.hash, c.issue.value)
  }

  function IssuanceEntries(hash: string, issued: seq<SharedIssuance>): set<Entry> {
    set i | i in issued :: Entry(hash, i.iss)
  }

  function SharedEntries(ss: seq<Shared>): set<Entry> {
    set s, e | s in ss && e in IssuanceEntries(s.hash, s.issuances) :: e
  }

  /** Every committed issuance in the journal, with its challenge. */
  function Entries(st: State): set<Entry> {
    DeviceEntries(st.challenges) + SharedEntries(st.shared)
  }

  // ----- Publication -----

  function PublishChallenge(c: Challenge): Challenge {
    if c.issue.Some? then c.(issue := Some(c.issue.value.(published := true))) else c
  }

  function PublishShared(s: Shared): Shared {
    s.(issuances := seq(|s.issuances|, i requires 0 <= i < |s.issuances| =>
                          s.issuances[i].(iss := s.issuances[i].iss.(published := true))))
  }

  /** The journal with every committed issuance marked as published. */
  function Publish(st: State): State {
    st.(challenges := seq(|st.challenges|, i requires 0 <= i < |st.challenges| => PublishChallenge(st.challenges[i])),
        shared := seq(|st.shared|, i requires 0 <= i < |st.shared| => PublishShared(st.shared[i])))
  }

  function PublishEntry(e: Entry): Entry {
    Entry(e.hash, e.iss.(published := true))
  }

  lemma PublishEntries(st: State)
    ensures Entries(Publish(st)) == set e | e in Entries(st) :: PublishEntry(e)
  {
    var p := Publish(st);
    forall e | e in Entries(st)
      ensures PublishEntry(e) in Entries(p)
    {
      if e in DeviceEntries(st.challenges) {
        var c :| c in st.challenges && c.issue.Some? && Entry(c.hash, c.issue.value) == e;
        var k :| 0 <= k < |st.challenges| && st.challenges[k] == c;
        assert p.challenges[k] == PublishChallenge(c);
        assert p.challenges[k] in p.challenges;
      } else {
        var s :| s in st.shared && e in IssuanceEntries(s.hash, s.issuances);
        var k :| 0 <= k < |st.shared| && st.shared[k] == s;
        PublishSharedEntries(s);
        assert p.shared[k] == PublishShared(s) && p.shared[k] in p.shared;
        assert PublishEntry(e) in IssuanceEntries(p.shared[k].hash, p.shared[k].issuances);
      }
    }
    forall e | e in Entries(p)
      ensures exists x :: x in Entries(st) && PublishEntry(x) == e
    {
      if e in DeviceEntries(p.challenges) {
        var c :| c in p.challenges && c.issue.Some? && Entry(c.hash, c.issue.value) == e;
        var k :| 0 <= k < |p.challenges| && p.challenges[k] == c;
        var o := st.challenges[k];
        assert o in st.challenges && PublishEntry(Entry(o.hash, o.issue.value)) == e;
      } else {
        var s :| s in p.shared && e in IssuanceEntries(s.hash, s.issuances);
        var k :| 0 <= k < |p.shared| && p.shared[k] == s;
        PublishSharedEntries(st.shared[k]);
        assert st.shared[k] in st.shared;
      }
    }
  }

  lemma PublishSharedEntries(s: Shared)
    ensures IssuanceEntries(PublishShared(s).hash, PublishShared(s).issuances)
         == set e | e in IssuanceEntries(s.hash, s.issuances) :: PublishEntry(e)
  {
    var p := PublishShared(s);
    forall e | e in IssuanceEntries(s.hash, s.issuances)
      ensures PublishEntry(e) in IssuanceEntries(p.hash, p.issuances)
    {
      var i :| i in s.issuances && Entry(s.hash, i.iss) == e;
      var k :| 0 <= k < |s.issuances| && s.issuances[k] == i;
      assert p.issuances[k] in p.issuances;
    }
    forall e | e in IssuanceEntries(p.hash, p.issuances)
      ensures exists x :: x in IssuanceEntries(s.hash, s.issuances) && PublishEntry(x) == e
    {
      var i :| i in p.issuances && Entry(p.hash, i.iss) == e;
      var k :| 0 <= k < |p.issuances| && p.issuances[k] == i;
      assert s.issuances[k] in s.issuances;
      assert PublishEntry(Entry(s.hash, s.issuances[k].iss)) == e;
    }
  }

  // ----- Pruning -----

  predicate KeepChallenge(c: Challenge, now: int) {
    || now < (if c.issue.Some? then c.issue.value.used else c.expires) + RETENTION
    || (c.issue.Some? && !c.issue.value.published)
  }

  function PruneChallenges(cs: seq<Challenge>, now: int): (r: seq<Challenge>) {
    if cs == [] then []
    else (if KeepChallenge(cs[0], now) then [cs[0]] else []) + PruneChallenges(cs[1..], now)
  }

  /** The first of the latest issuances with its identity. */
  predicate Newest(all: seq<SharedIssuance>, j: nat)
    requires j < |all|
  {
    forall k :: 0 <= k < |all| && all[k].identity == all[j].identity ==>
      if k < j then all[k].iss.used < all[j].iss.used else all[k].iss.used <= all[j].iss.used
  }

  predicate KeepIssuance(all: seq<SharedIssuance>, j: nat, now: int)
    requires j < |all|
  {
    now < all[j].iss.used + RETENTION || !all[j].iss.published || Newest(all, j)
  }

  function PruneIssuances(all: seq<SharedIssuance>, from: nat, now: int): (r: seq<SharedIssuance>)
    requires from <= |all|
    decreases |all| - from
  {
    if from == |all| then []
    else (if KeepIssuance(all, from, now) then [all[from]] else []) + PruneIssuances(all, from + 1, now)
  }

  function PruneShared(ss: seq<Shared>, now: int): (r: seq<Shared>) {
    if ss == [] then []
    else
      var s := ss[0].(issuances := PruneIssuances(ss[0].issuances, 0, now));
      (if now < s.expires + RETENTION || s.issuances != [] then [s] else []) + PruneShared(ss[1..], now)
  }

  /** pruneSCEP: what is left of the journal at time now. */
  function Prune(st: State, now: int): State {
    st.(challenges := PruneChallenges(st.challenges, now), shared := PruneShared(st.shared, now))
  }

  lemma {:induction false} PruneChallengesMembers(cs: seq<Challenge>, now: int, c: Challenge)
    ensures c in PruneChallenges(cs, now) <==> c in cs && KeepChallenge(c, now)
  {
    if cs == [] {
    } else {
      assert cs == [cs[0]] + cs[1..];
      PruneChallengesMembers(cs[1..], now, c);
    }
  }

  /** Kept issuances in order are issuances of the list in order. */
  lemma {:induction false} PruneIssuancesMembers(all: seq<SharedIssuance>, from: nat, now: int, x: SharedIssuance)
    requires from <= |all|
    ensures x in PruneIssuances(all, from, now)
       <==> exists k :: from <= k < |all| && all[k] == x && KeepIssuance(all, k, now)
    decreases |all| - from
  {
    hide KeepIssuance, PruneIssuances;
    PruneHead(all, from, now, x);
    if from == |all| {
    } else {
      PruneIssuancesMembers(all, from + 1, now, x);
    }
  }

  lemma PruneHead(all: seq<SharedIssuance>, from: nat, now: int, x: SharedIssuance)
    requires from <= |all|
    ensures x in PruneIssuances(all, from, now)
       <==> && from < |all|
            && ((KeepIssuance(all, from, now) && x == all[from]) || x in PruneIssuances(all, from + 1, now))
  {
    hide KeepIssuance;
  }

  lemma {:induction false} PruneSharedMembers(ss: seq<Shared>, now: int, s: Shared)
    ensures s in PruneShared(ss, now) <==>
            && (exists o :: o in ss && s == o.(issuances := PruneIssuances(o.issuances, 0, now)))
            && (now < s.expires + RETENTION || s.issuances != [])
  {
    if ss == [] {
    } else {
      assert ss == [ss[0]] + ss[1..];
      PruneSharedMembers(ss[1..], now, s);
    }
  }

  /** Pruning drops whole entries, and never one that is not published yet. */
  lemma PruneEntries(st: State, now: int)
    ensures Entries(Prune(st, now)) <= Entries(st)
    ensures forall e :: e in Entries(st) && !e.iss.published ==> e in Entries(Prune(st, now))
  {
    var p := Prune(st, now);
    forall e | e in Entries(p)
      ensures e in Entries(st)
    {
      if e in DeviceEntries(p.challenges) {
        var c :| c in p.challenges && c.issue.Some? && Entry(c.hash, c.issue.value) == e;
        PruneChallengesMembers(st.challenges, now, c);
      } else {
        var s :| s in p.shared && e in IssuanceEntries(s.hash, s.issuances);
        PruneSharedMembers(st.shared, now, s);
        var o :| o in st.shared && s == o.(issuances := PruneIssuances(o.issuances, 0, now));
        var i :| i in s.issuances && Entry(s.hash, i.iss) == e;
        PruneIssuancesMembers(o.issuances, 0, now, i);
        assert e in IssuanceEntries(o.hash, o.issuances);
      }
    }
    forall e | e in Entries(st) && !e.iss.published
      ensures e in Entries(p)
    {
      if e in DeviceEntries(st.challenges) {
        var c :| c in st.challenges && c.issue.Some? && Entry(c.hash, c.issue.value) == e;
        PruneChallengesMembers(st.challenges, now, c);
      } else {
        var o :| o in st.shared && e in IssuanceEntries(o.hash, o.issuances);
        var i :| i in o.issuances && Entry(o.hash, i.iss) == e;
        var k :| 0 <= k < |o.issuances| && o.issuances[k] == i;
        var s := o.(issuances := PruneIssuances(o.issuances, 0, now));
        PruneIssuancesMembers(o.issuances, 0, now, i);
        PruneSharedMembers(st.shared, now, s);
        assert e in IssuanceEntries(s.hash, s.issuances);
      }
    }
  }

  // ----- What a request gets -----

  /** A parsed enrollment request; names is None when its DNS names are refused as such. */
  datatype Request = Request(
    challenge: string, transaction: string, requestHash: string, signerHash: string,
    cn: string, dns: seq<string>, ips: seq<Addr>, otherSans: bool,
    names: Option<seq<string>>, source: Option<Addr>)

  /** Everything else a decision depends on: the fresh serial, the CA's capped expiry, policy, inventory, DNS. */
  datatype Env = Env(
    serial: string, cap: int, policyOk: bool, devices: seq<Device>,
    lookup: string -> Option<set<Addr>>, text: Addr -> string)

  datatype Decision = Return(der: Cert) | Issue(cert: Cert, identity: string) | Refuse

  /** What SharedCandidates makes of any request. */
  ghost predicate DistinctNames(q: Request) {
    q.names.Some? ==> NoRepeats(q.names.value)
  }

  predicate SameRequest(i: Issuance, q: Request) {
    i.transaction == q.transaction && i.requestHash == q.requestHash && i.signerHash == q.signerHash
  }

  /** allowedSCEPIdentities. */
  predicate AllowedIdentities(q: Request, c: Challenge) {
    && !q.otherSans
    && (forall d :: d in q.dns ==> d in c.dns)
    && (forall ip :: ip in q.ips ==> ip in c.ips)
  }

  function DecideDevice(c: Challenge, serials: set<string>, q: Request, now: int, env: Env): Decision {
    if c.issue.Some? then
      var i := c.issue.value;
      if now > i.used + RETENTION || !SameRequest(i, q) || i.record.serial !in serials then Refuse else Return(i.der)
    else if c.revoked || now > c.expires || !AllowedIdentities(q, c) || !c.profileOk || !env.policyOk then Refuse
    else
      match CaTree.SignedNotAfter(true, true, c.days, now, env.cap)
      case None => Refuse
      case Some(t) => Issue(Cert(env.serial, c.ca, q.cn, c.dns, c.ips, t), "")
  }

  predicate IsRetry(i: SharedIssuance, q: Request, src: Addr, now: int) {
    SameRequest(i.iss, q) && i.source == src && now < i.iss.used + RETENTION
  }

  function FirstRetry(issued: seq<SharedIssuance>, q: Request, src: Addr, now: int): (r: Option<SharedIssuance>)
    ensures r.Some? ==> r.value in issued && IsRetry(r.value, q, src, now)
    ensures r.None? ==> forall i :: i in issued ==> !IsRetry(i, q, src, now)
  {
    if issued == [] then None
    else if IsRetry(issued[0], q, src, now) then Some(issued[0])
    else FirstRetry(issued[1..], q, src, now)
  }

  predicate RateLimited(issued: seq<SharedIssuance>, identity: string, now: int) {
    exists k :: 0 <= k < |issued| && issued[k].identity == identity && now < issued[k].iss.used + RATE_WINDOW
  }

  function RequestNames(q: Request, s: Shared, src: Addr, env: Env): Option<seq<string>> {
    if s.suffixes == [] then Some([])
    else if q.names.None? then None
    else SharedNames(q.names.value, s.suffixes, src, env.devices, env.lookup)
  }

  function DecideShared(s: Shared, serials: set<string>, q: Request, now: int, env: Env): Decision {
    if s.revoked || now > s.expires || q.source.None? || !InRanges(s.ranges, q.source.value) then Refuse
    else
      var src := q.source.value;
      match FirstRetry(s.issuances, q, src, now)
      case Some(i) => if i.iss.record.serial !in serials then Refuse else Return(i.iss.der)
      case None =>
        if q.otherSans then Refuse
        else
          match RequestNames(q, s, src, env)
          case None => Refuse
          case Some(names) =>
            var identity := Identity(env.text, src, names);
            if RateLimited(s.issuances, identity, now) || !env.policyOk then Refuse
            else
              match CaTree.SignedNotAfter(true, true, s.days, now, env.cap)
              case None => Refuse
              case Some(t) =>
                Issue(Cert(env.serial, s.ca, if names == [] then env.text(src) else names[0], names, [src], t),
                      identity)
  }

  function FindDevice(cs: seq<Challenge>, hash: string, ca: string): (r: Option<nat>)
    ensures r.Some? ==> r.value < |cs| && cs[r.value].hash == hash && cs[r.value].ca == ca
    ensures r.None? ==> forall c :: c in cs ==> c.hash != hash || c.ca != ca
  {
    if cs == [] then None
    else if cs[0].hash == hash && cs[0].ca == ca then Some(0)
    else
      match FindDevice(cs[1..], hash, ca)
      case None => None
      case Some(k) => Some(k + 1)
  }

  function FindShared(ss: seq<Shared>, hash: string, ca: string): (r: Option<nat>)
    ensures r.Some? ==> r.value < |ss| && ss[r.value].hash == hash && ss[r.value].ca == ca
    ensures r.None? ==> forall s :: s in ss ==> s.hash != hash || s.ca != ca
  {
    if ss == [] then None
    else if ss[0].hash == hash && ss[0].ca == ca then Some(0)
    else
      match FindShared(ss[1..], hash, ca)
      case None => None
      case Some(k) => Some(k + 1)
  }

  /** The outcome of a request, given the journal and the serials in the index. */
  function Decide(st: State, serials: set<string>, q: Request, now: int, env: Env): Decision {
    match FindDevice(st.challenges, q.challenge, st.ca)
    case Some(i) => DecideDevice(st.challenges[i], serials, q, now, env)
    case None =>
      match FindShared(st.shared, q.challenge, st.ca)
      case Some(i) => DecideShared(st.shared[i], serials, q, now, env)
      case None => Refuse
  }

  // ----- Pruning is unobservable -----

  lemma FindDeviceIs(cs: seq<Challenge>, c: Challenge)
    requires c in cs && DistinctDevices(cs)
    ensures var r := FindDevice(cs, c.hash, c.ca); r.Some? && cs[r.value] == c
  {
    var r := FindDevice(cs, c.hash, c.ca);
    var k :| 0 <= k < |cs| && cs[k] == c;
  }

  lemma FindSharedIs(ss: seq<Shared>, s: Shared)
    requires s in ss && DistinctShared(ss)
    ensures var r := FindShared(ss, s.hash, s.ca); r.Some? && ss[r.value] == s
  {
    var r := FindShared(ss, s.hash, s.ca);
    var k :| 0 <= k < |ss| && ss[k] == s;
  }

  lemma {:induction false} PruneKeepsChallengesDistinct(cs: seq<Challenge>, now: int)
    requires DistinctDevices(cs)
    ensures DistinctDevices(PruneChallenges(cs, now))
  {
    if cs == [] {
    } else {
      PruneKeepsChallengesDistinct(cs[1..], now);
      forall c | c in PruneChallenges(cs[1..], now)
        ensures c.hash != cs[0].hash
      {
        PruneChallengesMembers(cs[1..], now, c);
        var k :| 0 <= k < |cs[1..]| && cs[1..][k] == c;
        assert cs[k + 1] == c;
      }
    }
  }

  lemma {:induction false} PruneKeepsSharedDistinct(ss: seq<Shared>, now: int)
    requires DistinctShared(ss)
    ensures DistinctShared(PruneShared(ss, now))
  {
    if ss == [] {
    } else {
      PruneKeepsSharedDistinct(ss[1..], now);
      forall s | s in PruneShared(ss[1..], now)
        ensures s.hash != ss[0].hash
      {
        PruneSharedMembers(ss[1..], now, s);
        var o :| o in ss[1..] && s == o.(issuances := PruneIssuances(o.issuances, 0, now));
        var k :| 0 <= k < |ss[1..]| && ss[1..][k] == o;
        assert ss[k + 1] == o;
      }
    }
  }

  lemma PruneKeepsDistinct(st: State, now: int)
    requires DistinctHashes(st)
    ensures DistinctHashes(Prune(st, now))
  {
    var p := Prune(st, now);
    PruneKeepsChallengesDistinct(st.challenges, now);
    PruneKeepsSharedDistinct(st.shared, now);
    forall c, s | c in p.challenges && s in p.shared
      ensures c.hash != s.hash
    {
      PruneChallengesMembers(st.challenges, now, c);
      PruneSharedMembers(st.shared, now, s);
    }
  }

  lemma {:induction false} PruneKeepsRetry(
    all: seq<SharedIssuance>, from: nat, then_: int, q: Request, src: Addr, now: int)
    requires from <= |all| && then_ <= now
    ensures FirstRetry(PruneIssuances(all, from, then_), q, src, now) == FirstRetry(all[from..], q, src, now)
    decreases |all| - from
  {
    hide Newest, SameRequest;
    if from == |all| {
    } else {
      PruneKeepsRetry(all, from + 1, then_, q, src, now);
      var rest := PruneIssuances(all, from + 1, then_);
      assert all[from..] == [all[from]] + all[from + 1..];
      if KeepIssuance(all, from, then_) {
        assert ([all[from]] + rest)[1..] == rest;
      } else {
        assert [] + rest == rest;
      }
    }
  }

  lemma PruneKeepsRateLimit(all: seq<SharedIssuance>, then_: int, identity: string, now: int)
    requires then_ <= now
    ensures RateLimited(PruneIssuances(all, 0, then_), identity, now) == RateLimited(all, identity, now)
  {
    var p := PruneIssuances(all, 0, then_);
    if RateLimited(all, identity, now) {
      var k :| 0 <= k < |all| && all[k].identity == identity && now < all[k].iss.used + RATE_WINDOW;
      PruneIssuancesMembers(all, 0, then_, all[k]);
      var j :| 0 <= j < |p| && p[j] == all[k];
    }
    if RateLimited(p, identity, now) {
      var j :| 0 <= j < |p| && p[j].identity == identity && now < p[j].iss.used + RATE_WINDOW;
      PruneIssuancesMembers(all, 0, then_, p[j]);
    }
  }

  lemma PruneSharedDecision(s: Shared, then_: int, serials: set<string>, q: Request, now: int, env: Env)
    requires then_ <= now
    ensures DecideShared(s.(issuances := PruneIssuances(s.issuances, 0, then_)), serials, q, now, env)
         == DecideShared(s, serials, q, now, env)
  {
    if q.source.Some? {
      var src := q.source.value;
      PruneKeepsRetry(s.issuances, 0, then_, q, src, now);
      assert s.issuances[0..] == s.issuances;
      var names := RequestNames(q, s, src, env);
      if names.Some? {
        PruneKeepsRateLimit(s.issuances, then_, Identity(env.text, src, names.value), now);
      }
    }
  }

  /** The one request pruning can be noticed by: a retry exactly at the end of its retention. */
  predicate BoundaryRetry(st: State, pruned: int, serials: set<string>, q: Request, now: int) {
    && now == pruned
    && var i := FindDevice(st.challenges, q.challenge, st.ca);
       && i.Some? && st.challenges[i.value].issue.Some?
       && var iss := st.challenges[i.value].issue.value;
          now == iss.used + RETENTION && iss.published && SameRequest(iss, q) && iss.record.serial in serials
  }

  /**
    A request gets the same outcome from a pruned journal as from the unpruned one at
    any time from the pruning on, exactly unless it is a per-device retry at that very
    instant, seven days after the issuance.
    */
  lemma PruningIsUnobservable(st: State, pruned: int, serials: set<string>, q: Request, now: int, env: Env)
    requires DistinctHashes(st) && pruned <= now
    ensures Decide(Prune(st, pruned), serials, q, now, env) == Decide(st, serials, q, now, env)
       <==> !BoundaryRetry(st, pruned, serials, q, now)
  {
    var p := Prune(st, pruned);
    PruneKeepsDistinct(st, pruned);
    var i := FindDevice(st.challenges, q.challenge, st.ca);
    if i.Some? {
      PrunedDeviceDecision(st, pruned, serials, q, now, env, i.value);
    } else {
      var d := FindDevice(p.challenges, q.challenge, st.ca);
      if d.Some? {
        PruneChallengesMembers(st.challenges, pruned, p.challenges[d.value]);
      }
      PrunedSharedDecision(st, pruned, serials, q, now, env);
    }
  }

  /** Such a request exists: seven days to the second after its issuance, pruning turns a retry into a refusal. */
  lemma PruningIsSeenAtTheBoundary(der: Cert, r: Record, env: Env)
    ensures var iss := Issuance(0, "t", "q", "s", der, r, true);
            var st := State("ca", [Challenge("h", "ca", true, [], [], 1, 0, false, Some(iss))], []);
            var q := Request("h", "t", "q", "s", "", [], [], false, None, None);
            && DistinctHashes(st)
            && Decide(st, {r.serial}, q, RETENTION, env) == Return(der)
            && Decide(Prune(st, RETENTION), {r.serial}, q, RETENTION, env) == Refuse
  {
    var iss := Issuance(0, "t", "q", "s", der, r, true);
    var c := Challenge("h", "ca", true, [], [], 1, 0, false, Some(iss));
    assert [c][1..] == [] && PruneChallenges([c], RETENTION) == [];
  }

  lemma PrunedDeviceDecision(st: State, pruned: int, serials: set<string>, q: Request, now: int, env: Env, i: nat)
    requires DistinctHashes(st) && DistinctHashes(Prune(st, pruned)) && pruned <= now
    requires FindDevice(st.challenges, q.challenge, st.ca) == Some(i)
    ensures Decide(Prune(st, pruned), serials, q, now, env) == Decide(st, serials, q, now, env)
       <==> !BoundaryRetry(st, pruned, serials, q, now)
  {
    var p := Prune(st, pruned);
    var c := st.challenges[i];
    PruneChallengesMembers(st.challenges, pruned, c);
    if KeepChallenge(c, pruned) {
      FindDeviceIs(p.challenges, c);
    } else {
      var d := FindDevice(p.challenges, q.challenge, st.ca);
      if d.Some? {
        PruneChallengesMembers(st.challenges, pruned, p.challenges[d.value]);
        FindDeviceIs(st.challenges, p.challenges[d.value]);
      }
      var s := FindShared(p.shared, q.challenge, st.ca);
      if s.Some? {
        PruneSharedMembers(st.shared, pruned, p.shared[s.value]);
      }
      assert Decide(p, serials, q, now, env) == Refuse;
    }
  }

  lemma PrunedSharedDecision(st: State, pruned: int, serials: set<string>, q: Request, now: int, env: Env)
    requires DistinctHashes(st) && DistinctHashes(Prune(st, pruned)) && pruned <= now
    requires FindDevice(st.challenges, q.challenge, st.ca).None?
    requires FindDevice(Prune(st, pruned).challenges, q.challenge, st.ca).None?
    ensures Decide(Prune(st, pruned), serials, q, now, env) == Decide(st, serials, q, now, env)
  {
    var p := Prune(st, pruned);
    var k := FindShared(st.shared, q.challenge, st.ca);
    if k.Some? {
      var o := st.shared[k.value];
      var s := o.(issuances := PruneIssuances(o.issuances, 0, pruned));
      PruneSharedMembers(st.shared, pruned, s);
      PruneSharedDecision(o, pruned, serials, q, now, env);
      if s in p.shared {
        FindSharedIs(p.shared, s);
      } else {
        NoSharedLeft(st, pruned, q.challenge, k.value);
      }
    } else {
      var r := FindShared(p.shared, q.challenge, st.ca);
      if r.Some? {
        PruneSharedMembers(st.shared, pruned, p.shared[r.value]);
      }
    }
  }

  lemma NoSharedLeft(st: State, pruned: int, hash: string, k: nat)
    requires DistinctHashes(st) && FindShared(st.shared, hash, st.ca) == Some(k)
    requires var o := st.shared[k]; o.(issuances := PruneIssuances(o.issuances, 0, pruned)) !in Prune(st, pruned).shared
    ensures FindShared(Prune(st, pruned).shared, hash, st.ca).None?
  {
    var p := Prune(st, pruned);
    var r := FindShared(p.shared, hash, st.ca);
    if r.Some? {
      PruneSharedMembers(st.shared, pruned, p.shared[r.value]);
      var o :| o in st.shared && p.shared[r.value] == o.(issuances := PruneIssuances(o.issuances, 0, pruned));
      FindSharedIs(st.shared, o);
    }
  }
}
