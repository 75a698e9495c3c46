/**
  The SCEP service over its storage.  What is issued is decided by the journal file,
  which is written as a whole; certificate files and index only follow it.  Every
  storage step may fail before or after its effect or lose the process, and the
  invariant holds after each.
  */
module ScepService {
  import opened Faults
  import opened Wrappers
  import opened CertIndex
  import opened ScepNames
  import opened ScepState
  import opened ScepInvariant
  import opened ScepSteps
  import opened ScepDecision
  import CaTree

  const MAX_CHALLENGES: int := 10000

  /** Success and Failure are CertRep messages, Unavailable is a 503, Rejected a 400, Dead a lost process. */
  datatype Reply = Success(der: Cert) | Failure | Unavailable | Rejected | Dead

  function NoReply(s: Status): Reply {
    if s.Crashed? then Dead else Unavailable
  }

  /** CAs that recovery needs. */
  function PendingCas(st: State): set<string> {
    (set c | c in st.challenges && c.issue.Some? && !c.issue.value.published :: c.ca)
    + (set s, i | s in st.shared && i in s.issuances && !i.iss.published :: s.ca)
  }

  class ScepService {
    const text: Addr -> string  // how addresses are written
    var journal: State
    var index: seq<Record>
    var pems: map<string, Cert>
    var trash: seq<Record>      // records of every trash index
    var dirs: set<string>       // CA directories in place
    var cas: set<string>        // those of them usable for SCEP
    var clock: int
    var healthy: bool
    ghost var h: History

    ghost function W(): World
      reads this
    {
      World(journal, index, pems, trash, h, clock, text)
    }

    constructor (text: Addr -> string)
      ensures Inv(W()) && journal == State("", [], []) && index == [] && this.text == text
    {
      this.text := text;
      journal, index, pems, trash := State("", [], []), [], map[], [];
      dirs, cas := {}, {};
      clock, healthy, h := 0, true, History(map[], {}, {}, map[]);
    }

    method Now() returns (t: int)
      requires Inv(W())
      modifies this`clock
      ensures Inv(W()) && t == clock >= old(clock) && Known(W()) == Known(old(W()))
    {
      var reading: int := *;
      if reading > clock {
        Tick(W(), reading);
        clock := reading;
      }
      t := clock;
    }

    /** Reading a file. */
    method Load() returns (s: Status)
      ensures healthy ==> s.Done?
    {
      var effect;
      s, effect := Fate(healthy);
    }

    /** save: the journal is replaced as a whole, together with what that commits. */
    method Save(next: State, ghost committed: History) returns (s: Status)
      requires Inv(W()) && Inv(W().(journal := next, h := committed))
      modifies this`journal, this`h
      ensures Inv(W())
      ensures (journal == old(journal) && h == old(h)) || (journal == next && h == committed)
      ensures s.Done? ==> journal == next && h == committed
      ensures healthy ==> s.Done?
    {
      hide Inv;
      var effect;
      s, effect := Fate(healthy);
      if effect {
        journal, h := next, committed;
      }
    }

    // ----- Publication and recovery -----

    /** A certificate whose projection is complete. */
    predicate OnDisk(serial: string)
      reads this
    {
      serial in Serials(index) && serial in pems
    }

    /** Nothing of a shared challenge is left to project; dirty says whether there was anything. */
    predicate SharedProjected(c: Shared, dirty: bool)
      reads this
    {
      && (forall e :: e in IssuanceEntries(c.hash, c.issuances) && !e.iss.published ==> dirty && OnDisk(EntrySerial(e)))
      && (forall i :: i in c.issuances && !i.iss.published ==> c.ca in cas)
    }

    /** publish: the PEM, then the record unless the index has it. */
    method PublishOne(ghost hash: string, iss: Issuance) returns (s: Status)
      requires Inv(W()) && Entry(hash, iss) in Entries(journal) && !iss.published
      modifies this`pems, this`index
      ensures Inv(W()) && Known(W()) == Known(old(W()))
      ensures index == old(index) || index == WithRecord(old(index), iss.record)
      ensures pems == old(pems) || pems == old(pems)[iss.record.serial := iss.der]
      ensures s.Done? ==> index == WithRecord(old(index), iss.record) && pems == old(pems)[iss.record.serial := iss.der]
      ensures healthy ==> s.Done?
    {
      hide Inv, Entries;
      ghost var e := Entry(hash, iss);
      EntryIsKnown(W(), e);
      var effect;
      s, effect := Fate(healthy);
      if effect {
        WritePem(W(), e);
        pems := pems[iss.record.serial := iss.der];
      }
      if !s.Done? {
        return;
      }
      s := Load();
      if !s.Done? {
        return;
      }
      var found := Has(iss.record.serial);
      if !found {
        s, effect := Fate(healthy);
        if effect {
          AppendRecord(W(), e);
          index := index + [iss.record];
        }
      }
    }

    method Has(serial: string) returns (found: bool)
      ensures found <==> serial in Serials(index)
    {
      found := false;
      for i := 0 to |index|
        invariant found <==> serial in Serials(index[..i])
      {
        assert index[..i + 1] == index[..i] + [index[i]];
        SerialsAppend(index[..i], index[i]);
        if index[i].serial == serial {
          found := true;
        }
      }
      assert index[..|index|] == index;
    }

    /** The closure of recover: publishes one committed issuance unless it is published. */
    method Pend(ca: string, ghost hash: string, iss: Issuance) returns (s: Status)
      requires Inv(W()) && Entry(hash, iss) in Entries(journal)
      modifies this`pems, this`index
      ensures Inv(W()) && Known(W()) == Known(old(W()))
      ensures iss.published ==> s.Done? && index == old(index) && pems == old(pems)
      ensures Extends(old(index), index, {iss.record.serial}) && old(pems).Keys <= pems.Keys
      ensures s.Done? ==> iss.published || (OnDisk(iss.record.serial) && ca in cas)
      ensures healthy && (iss.published || ca in cas) ==> s.Done?
    {
      hide Inv, Entries, Known;
      if iss.published {
        return Done;
      }
      if ca !in cas {
        return Failed;
      }
      s := PublishOne(hash, iss);
      SerialsAppend(old(index), iss.record);
    }

    method RecoverDevices(st: State) returns (s: Status, cs: seq<Challenge>, dirty: bool)
      requires Inv(W()) && st == journal
      modifies this`pems, this`index
      ensures Inv(W()) && Known(W()) == Known(old(W()))
      ensures Extends(old(index), index, Pending(journal)) && old(pems).Keys <= pems.Keys
      ensures s.Done? ==>
                && cs == Publish(st).challenges
                && (forall e :: e in DeviceEntries(st.challenges) && !e.iss.published ==>
                        dirty && OnDisk(EntrySerial(e)))
                && (forall c :: c in st.challenges && Unpublished(c) ==> c.ca in cas)
      ensures healthy && PendingCas(st) <= cas ==> s.Done?
    {
      hide Inv, Known;
      s, cs, dirty := Done, st.challenges, false;
      for i := 0 to |st.challenges|
        invariant Inv(W()) && Known(W()) == Known(old(W())) && s.Done?
        invariant Extends(old(index), index, Pending(journal)) && old(pems).Keys <= pems.Keys
        invariant |cs| == |st.challenges|
        invariant forall k :: 0 <= k < |cs| ==>
                cs[k] == if k < i then PublishChallenge(st.challenges[k]) else st.challenges[k]
        invariant forall k :: 0 <= k < i && Unpublished(st.challenges[k]) ==>
                    dirty && OnDisk(st.challenges[k].issue.value.record.serial) && st.challenges[k].ca in cas
      {
        var c := st.challenges[i];
        if c.issue.Some? {
          EntryOfDevice(st, i);
          dirty := dirty || !c.issue.value.published;
          s := Pend(c.ca, c.hash, c.issue.value);
          if !s.Done? {
            return;
          }
          cs := cs[i := PublishChallenge(c)];
        }
      }
      assert cs == Publish(st).challenges;
    }

    method RecoverShared(st: State, k: nat) returns (s: Status, shared: Shared, dirty: bool)
      requires Inv(W()) && st == journal && k < |st.shared|
      modifies this`pems, this`index
      ensures Inv(W()) && Known(W()) == Known(old(W()))
      ensures Extends(old(index), index, Pending(journal)) && old(pems).Keys <= pems.Keys
      ensures s.Done? ==>
                && shared == PublishShared(st.shared[k])
                && SharedProjected(st.shared[k], dirty)
      ensures healthy && PendingCas(st) <= cas ==> s.Done?
    {
      hide Inv, Known;
      var c := st.shared[k];
      var issued := c.issuances;
      s, shared, dirty := Done, c, false;
      for j := 0 to |issued|
        invariant Inv(W()) && Known(W()) == Known(old(W())) && s.Done?
        invariant Extends(old(index), index, Pending(journal)) && old(pems).Keys <= pems.Keys
        invariant shared == c.(issuances := shared.issuances) && |shared.issuances| == |issued|
        invariant forall m :: 0 <= m < |issued| ==>
                    shared.issuances[m] ==
                          if m < j then issued[m].(iss := issued[m].iss.(published := true)) else issued[m]
        invariant forall m :: 0 <= m < j && !issued[m].iss.published ==>
                    dirty && OnDisk(issued[m].iss.record.serial) && c.ca in cas
      {
        EntryOfShared(st, k, j);
        dirty := dirty || !issued[j].iss.published;
        s := Pend(c.ca, c.hash, issued[j].iss);
        if !s.Done? {
          return;
        }
        shared := c.(issuances := shared.issuances[j := issued[j].(iss := issued[j].iss.(published := true))]);
      }
      assert shared == PublishShared(c);
    }

    method RecoverAllShared(st: State) returns (s: Status, shared: seq<Shared>, dirty: bool)
      requires Inv(W()) && st == journal
      modifies this`pems, this`index
      ensures Inv(W()) && Known(W()) == Known(old(W()))
      ensures Extends(old(index), index, Pending(journal)) && old(pems).Keys <= pems.Keys
      ensures s.Done? ==>
                && shared == Publish(st).shared
                && (forall m :: 0 <= m < |st.shared| ==> SharedProjected(st.shared[m], dirty))
      ensures healthy && PendingCas(st) <= cas ==> s.Done?
    {
      hide Inv, Known, Pending, PendingCas;
      s, shared, dirty := Done, st.shared, false;
      for k := 0 to |st.shared|
        invariant Inv(W()) && Known(W()) == Known(old(W())) && s.Done?
        invariant Extends(old(index), index, Pending(journal)) && old(pems).Keys <= pems.Keys
        invariant |shared| == |st.shared|
        invariant forall m :: 0 <= m < |shared| ==>
                shared[m] == if m < k then PublishShared(st.shared[m]) else st.shared[m]
        invariant forall m :: 0 <= m < k ==> SharedProjected(st.shared[m], dirty)
      {
        var one, more;
        s, one, more := RecoverShared(st, k);
        if !s.Done? {
          return;
        }
        dirty := dirty || more;
        shared := shared[k := one];
      }
      assert shared == Publish(st).shared;
    }

    /**
      recover: after it succeeds, the journal marks every committed issuance as published
      and the index has each one that was pending.  A CA that is missing is an error,
      never a reason to drop what was committed.
      */
    method Recover(st0: State) returns (s: Status, st: State)
      requires Inv(W()) && st0 == journal
      modifies this`journal, this`pems, this`index, this`h
      ensures Inv(W()) && h == old(h) && Known(W()) == Known(old(W()))
      ensures journal == old(journal) || journal == Publish(old(journal))
      ensures Extends(old(index), index, Pending(old(journal))) && old(pems).Keys <= pems.Keys
      ensures s.Done? ==>
                && st == journal == Publish(old(journal)) && Pending(journal) == {}
                && Serials(index) == Serials(old(index)) + Pending(old(journal)) && Pending(old(journal)) <= pems.Keys
                && PendingCas(st0) <= cas
      ensures healthy && PendingCas(st0) <= cas ==> s.Done?
    {
      hide Inv, Known, Extends, PendingCas;
      st := st0;
      var cs, shared, dirty, more;
      s, cs, dirty := RecoverDevices(st0);
      if !s.Done? {
        return;
      }
      ghost var mid := index;
      s, shared, more := RecoverAllShared(st0);
      ExtendsTwice(old(index), mid, index, Pending(st0));
      ExtendsSerials(mid, index, Pending(st0));
      if !s.Done? {
        return;
      }
      dirty := dirty || more;
      PendingCasKnown(st0, cas);
      st := st.(challenges := cs, shared := shared);
      assert st == Publish(st0);
      AllPublished(st0, Serials(index) * pems.Keys, dirty);
      ExtendsSerials(old(index), index, Pending(st0));
      if dirty {
        PublishContinues(W());
        ReplaceJournal(W(), Publish(st0));
        KnownIgnoresJournal(W(), Publish(st0));
        s := Save(st, h);
        PublishedPending(st0);
      }
    }

    // ----- Enrollment -----

    /** RecordBySerial: an unreadable index counts as a missing record. */
    method RecordBySerial(serial: string) returns (s: Status, found: bool)
      ensures found ==> serial in Serials(index)
      ensures healthy ==> s.Done? && (serial in Serials(index) ==> found)
    {
      s := Load();
      found := false;
      if s.Done? {
        found := Has(serial);
      }
    }

    /** The SUCCESS reply for a committed issuance. */
    method Respond(ghost e: Entry, der: Cert) returns (reply: Reply)
      requires Inv(W()) && e in Entries(journal) && e.iss.der == der
      modifies this`h
      ensures Inv(W()) && Later(old(h), h) && Known(W()) == Known(old(W())) && h.hashes == old(h).hashes
      ensures reply.Success? ==> reply.der == der && Grant(e.hash, der) in h.grants
      ensures reply.Success? || reply == Unavailable || reply == Dead
      ensures healthy ==> reply.Success?
    {
      var s, effect := Fate(healthy);
      if !s.Done? {
        return NoReply(s);
      }
      ScepInvariant.Reply(W(), e);
      h := h.(grants := h.grants + {Grant(e.hash, der)});
      return Success(der);
    }

    /** Commit before touching the projection: save, recover, and only then reply. */
    method CommitAndRespond(next: State, ghost e: Entry, der: Cert, ca: string) returns (reply: Reply)
      requires Inv(W()) && Pending(journal) == {} && EntrySerial(e) !in Known(W())
      requires Inv(W().(journal := next, h := Committed(h, e)))
      requires e in Entries(next) && !e.iss.published && e.iss.der == der && PendingCas(next) <= {ca} && ca in cas
      requires Pending(next) == {EntrySerial(e)} && der.serial == EntrySerial(e)
      modifies this`journal, this`pems, this`index, this`h
      ensures Inv(W()) && Later(old(h), h) && Known(W()) <= Known(old(W())) + {EntrySerial(e)}
      ensures h.hashes == old(h).hashes
      ensures reply.Success? ==>
                && reply.der == der && Grant(e.hash, der) in h.grants && OnDisk(der.serial)
                && PublishEntry(e) in Entries(journal)
      ensures reply.Success? || reply == Unavailable || reply == Dead
      ensures healthy ==> reply.Success?
    {
      hide Inv, Entries, Publish, PendingCas, Known;
      KnownPlus(W(), next, e);
      var s := Save(next, Committed(h, e));
      if !s.Done? {
        return NoReply(s);
      }
      var st;
      s, st := Recover(next);
      if !s.Done? {
        return NoReply(s);
      }
      PublishedEntry(next, e);
      reply := Respond(PublishEntry(e), der);
    }

    /** The per-device branch of enroll for challenge i of the recovered journal. */
    method EnrollDevice(st: State, i: nat, q: Request, now: int, env: Env) returns (reply: Reply)
      requires Inv(W()) && st == journal && Pending(st) == {} && i < |st.challenges|
      requires st.challenges[i].hash == q.challenge && st.challenges[i].ca == st.ca && st.ca in cas
      requires env.serial !in Known(W())
      modifies this`journal, this`pems, this`index, this`h
      ensures Inv(W()) && Later(old(h), h) && Known(W()) <= Known(old(W())) + {env.serial} && h.hashes == old(h).hashes
      ensures Answers(reply, DecideDevice(st.challenges[i], Serials(old(index)), q, now, env), healthy)
      ensures reply.Success? ==> Grant(q.challenge, reply.der) in h.grants && reply.der.serial in Serials(index)
      ensures reply.Success? ==> Receipt(journal, q, reply.der)
      ensures st.challenges[i].issue.None? && (reply.Success? || reply.Failure?) ==>
                && (reply.Success? <==> Permits(st.challenges[i], q, now, env))
                && (reply.Success? ==> OwnSans(st.challenges[i], q, reply.der))
    {
      hide Inv, Entries, Known;
      var c := st.challenges[i];
      var allowed := AllowedSCEPIdentities(q, c);
      if c.issue.Some? {
        var iss := c.issue.value;
        EntryOfDevice(st, i);
        if now > iss.used + RETENTION || !SameRequest(iss, q) {
          return Failure;
        }
        // A retry gets its certificate back only while the index lists it.
        var s, found := RecordBySerial(iss.record.serial);
        if s.Crashed? {
          return Dead;
        }
        if !found {
          return Failure;
        }
        EntryDerSerial(W(), Entry(c.hash, iss));
        reply := Respond(Entry(c.hash, iss), iss.der);
        return;
      }
      if c.revoked || now > c.expires || !allowed || !c.profileOk || !env.policyOk {
        return Failure;
      }
      var notAfter := CaTree.SignedNotAfter(true, true, c.days, now, env.cap);
      if notAfter.None? {
        return Failure;
      }
      var der := Cert(env.serial, c.ca, q.cn, c.dns, c.ips, notAfter.value);
      var rec := Record(env.serial, Csr, st.ca, "", false, now - 300, notAfter.value, false, false, "scep");
      var iss := Issuance(now, q.transaction, q.requestHash, q.signerHash, der, rec, false);
      UseCommits(W(), i, iss);
      UsePending(W(), st, i, iss);
      reply := CommitAndRespond(Use(st, i, iss), Entry(c.hash, iss), der, st.ca);
    }

    /** enrollShared for shared challenge k of the recovered journal. */
    method EnrollShared(st: State, k: nat, q: Request, now: int, env: Env) returns (reply: Reply)
      requires Inv(W()) && st == journal && Pending(st) == {} && k < |st.shared| && now == clock
      requires st.shared[k].hash == q.challenge && st.shared[k].ca == st.ca && st.ca in cas
      requires env.serial !in Known(W())
      requires env.text == text && DistinctNames(q)
      modifies this`journal, this`pems, this`index, this`h
      ensures Inv(W()) && Later(old(h), h) && Known(W()) <= Known(old(W())) + {env.serial} && h.hashes == old(h).hashes
      ensures Answers(reply, DecideShared(st.shared[k], Serials(old(index)), q, now, env), healthy)
      ensures reply.Success? ==> Grant(q.challenge, reply.der) in h.grants && reply.der.serial in Serials(index)
      ensures reply.Success? ==>
              SourceBound(st.shared[k], q, env, reply.der) && Receipt(journal, q, reply.der)
    {
      hide Inv, Entries, Known;
      var c := st.shared[k];
      if c.revoked || now > c.expires || q.source.None? || !InRanges(c.ranges, q.source.value) {
        return Failure;
      }
      var src := q.source.value;
      RangesAreBlocks(c.ranges, src);
      var retry := FindRetry(c.issuances, q, src, now);
      if retry.Some? {
        var iss := retry.value.iss;
        var j :| 0 <= j < |c.issuances| && c.issuances[j] == retry.value;
        EntryOfShared(st, k, j);
        var s, found := RecordBySerial(iss.record.serial);
        if s.Crashed? {
          return Dead;
        }
        if !found {
          return Failure;
        }
        EntryDerSerial(W(), Entry(c.hash, iss));
        BoundIssuance(W(), k, retry.value);
        reply := Respond(Entry(c.hash, iss), iss.der);
        return;
      }
      if q.otherSans {
        return Failure;
      }
      var names := None;
      if c.suffixes == [] {
        names := Some([]);
      } else if q.names.Some? {
        names := VerifyNames(q.names.value, c.suffixes, src, env.devices, env.lookup);
      }
      if names.None? {
        return Failure;
      }
      var identity := Identity(env.text, src, names.value);
      var limited := Limited(c.issuances, identity, now);
      if limited || !env.policyOk {
        return Failure;
      }
      var notAfter := CaTree.SignedNotAfter(true, true, c.days, now, env.cap);
      if notAfter.None? {
        return Failure;
      }
      var cn := if names.value == [] then env.text(src) else names.value[0];
      var der := Cert(env.serial, c.ca, cn, names.value, [src], notAfter.value);
      var rec := Record(env.serial, Csr, st.ca, "", false, now - 300, notAfter.value, false, false, "scep");
      var x := SharedIssuance(Issuance(now, q.transaction, q.requestHash, q.signerHash, der, rec, false), identity,
            src);
      assert DecideShared(c, Serials(index), q, now, env) == Issue(der, identity);
      IssueIsSpaced(c, Serials(index), q, now, env, x);
      IssuedNamesAreInDomain(c, Serials(index), q, now, env);
      AddCommits(W(), k, x);
      AddPending(W(), st, k, x);
      reply := CommitAndRespond(Add(st, k, x), Entry(c.hash, x.iss), der, st.ca);
    }

    /**
      enroll.  ready stands for the selected CA's key and chain, parsed for a request that
      passes framing, signature and decryption.  Whatever storage does, SUCCESS is the
      decision that the recovered journal makes at the time of the request, and so is
      FAILURE, except that a retry is refused too while the index is unreadable.
      */
    method Enroll(q: Request, ready: bool, parsed: bool, env: Env) returns (reply: Reply)
      requires Inv(W()) && env.serial !in Known(W())
      requires env.text == text && DistinctNames(q)
      modifies this`journal, this`pems, this`index, this`clock, this`h
      ensures Inv(W()) && Later(old(h), h) && Known(W()) <= Known(old(W())) + {env.serial} && h.hashes == old(h).hashes
      ensures reply.Success? || reply.Failure? ==>
                var serials := Serials(old(index)) + Pending(old(journal));
                && ready && parsed
                && Answers(reply, Decide(Publish(old(journal)), serials, q, clock, env), healthy)
      ensures reply.Success? ==>
                && Grant(q.challenge, reply.der) in h.grants
                && reply.der.serial in Serials(index) && reply.der.serial !in h.deleted
                && Receipt(journal, q, reply.der)
      ensures forall c :: c in old(journal).challenges && c.hash == q.challenge && c.ca == old(journal).ca ==>
                c.issue.None? && (reply.Success? || reply.Failure?) ==>
                  && (reply.Success? <==> Permits(c, q, clock, env))
                  && (reply.Success? ==> OwnSans(c, q, reply.der))
      ensures forall s :: s in old(journal).shared && s.hash == q.challenge && s.ca == old(journal).ca ==>
                reply.Success? ==> SourceBound(s, q, env, reply.der)
      ensures healthy && ready && parsed && old(journal).ca in cas && PendingCas(old(journal)) <= cas ==>
                reply.Success? || reply.Failure?
    {
      hide Inv, Known, Entries, Pending, PendingCas, DecideDevice, DecideShared, SourceBound, Permits, OwnSans, Receipt;
      HashesDiffer(W());
      var s := Load();
      if !s.Done? {
        return NoReply(s);
      }
      var st := journal;
      if st.ca !in cas || !ready {
        return Unavailable;
      }
      if !parsed {
        return Rejected;
      }
      s, st := Recover(st);
      if !s.Done? {
        return NoReply(s);
      }
      var now := Now();
      reply := Dispatch(st, q, now, env);
      GrantedNotDeleted(W());
      UnusedAnswer(old(journal), Serials(old(index)) + Pending(old(journal)), q, now, env, reply, healthy);
      SharedAnswer(old(journal), q, env, reply);
    }

    /** The loops that look for the request's challenge in the recovered journal. */
    method Dispatch(st: State, q: Request, now: int, env: Env) returns (reply: Reply)
      requires Inv(W()) && st == journal && Pending(st) == {} && st.ca in cas && now == clock
      requires env.serial !in Known(W())
      requires env.text == text && DistinctNames(q)
      modifies this`journal, this`pems, this`index, this`h
      ensures Inv(W()) && Later(old(h), h) && Known(W()) <= Known(old(W())) + {env.serial} && h.hashes == old(h).hashes
      ensures Answers(reply, Decide(st, Serials(old(index)), q, now, env), healthy)
      ensures reply.Success? ==> Grant(q.challenge, reply.der) in h.grants && reply.der.serial in Serials(index)
      ensures reply.Success? ==> Receipt(journal, q, reply.der)
      ensures reply.Success? ==>
                forall s :: s in st.shared && s.hash == q.challenge && s.ca == st.ca ==>
                  SourceBound(s, q, env, reply.der)
    {
      hide Inv, Known, Entries, Pending, DecideDevice, DecideShared, SourceBound, Permits, OwnSans, Receipt;
      HashesDiffer(W());
      for i := 0 to |st.challenges|
        invariant W() == old(W())
        invariant forall j :: 0 <= j < i ==> st.challenges[j].hash != q.challenge || st.challenges[j].ca != st.ca
      {
        if st.challenges[i].hash == q.challenge && st.challenges[i].ca == st.ca {
          FirstDevice(st.challenges, i, q.challenge, st.ca);
          reply := EnrollDevice(st, i, q, now, env);
          return;
        }
      }
      NoDevice(st.challenges, q.challenge, st.ca);
      for i := 0 to |st.shared|
        invariant W() == old(W())
        invariant forall j :: 0 <= j < i ==> st.shared[j].hash != q.challenge || st.shared[j].ca != st.ca
      {
        if st.shared[i].hash == q.challenge && st.shared[i].ca == st.ca {
          FirstShared(st.shared, i, q.challenge, st.ca);
          reply := EnrollShared(st, i, q, now, env);
          return;
        }
      }
      NoShared(st.shared, q.challenge, st.ca);
      return Failure;
    }

    // ----- Challenge administration -----

    /**
      challenge and sharedChallenge: valid stands for the checks of template, lifetime and
      identities, fresh for the challenge (per-device or shared) under its new random hash.
      */
    method Create(device: Option<Challenge>, shared: Option<Shared>, valid: bool) returns (s: Status)
      requires Inv(W()) && (device.Some? <==> shared.None?)
      requires device.Some? ==> device.value.issue.None? && device.value.hash !in h.hashes
      requires shared.Some? ==> shared.value.issuances == [] && shared.value.hash !in h.hashes
      modifies this`journal, this`pems, this`index, this`clock, this`h
      ensures Inv(W()) && Later(old(h), h) && Known(W()) == Known(old(W()))
      ensures h.hashes.Keys <= old(h).hashes.Keys + {if device.Some? then device.value.hash else shared.value.hash}
      ensures journal in {old(journal), Publish(old(journal)), Created(old(journal), device, shared, clock)}
      ensures s.Done? ==>
                var kept := Prune(Publish(old(journal)), clock);
                && valid && |kept.challenges| + |kept.shared| < MAX_CHALLENGES
                && journal == Created(old(journal), device, shared, clock)
      ensures healthy ==>
                (s.Done? <==>
                  var kept := Prune(Publish(old(journal)), clock);
                  && old(journal).ca in cas && valid && PendingCas(old(journal)) <= cas
                  && |kept.challenges| + |kept.shared| < MAX_CHALLENGES)
    {
      hide Inv, Known, Continues;
      s := Load();
      if !s.Done? {
        return;
      }
      var st := journal;
      if st.ca !in cas || !valid {
        return Failed;
      }
      s, st := Recover(st);
      if !s.Done? {
        return;
      }
      var now := Now();
      PruneContinues(W(), now);
      st := PruneAll(st, now);
      if |st.challenges| + |st.shared| >= MAX_CHALLENGES {
        return Failed;
      }
      s := AddChallenge(st, device, shared);
    }

    /** The new challenge is appended and the journal saved. */
    method AddChallenge(kept: State, device: Option<Challenge>, shared: Option<Shared>) returns (s: Status)
      requires Inv(W()) && Continues(W(), kept) && (device.Some? <==> shared.None?)
      requires device.Some? ==> device.value.issue.None? && device.value.hash !in h.hashes
      requires shared.Some? ==> shared.value.issuances == [] && shared.value.hash !in h.hashes
      modifies this`journal, this`h
      ensures Inv(W()) && Later(old(h), h) && Known(W()) == Known(old(W()))
      ensures h.hashes.Keys <= old(h).hashes.Keys + {if device.Some? then device.value.hash else shared.value.hash}
      ensures healthy ==> s.Done?
      ensures journal == old(journal) || journal == Appended(kept, device, shared)
      ensures s.Done? ==> journal == Appended(kept, device, shared)
    {
      hide Inv, Known, Continues;
      var st := kept;
      ghost var hash := if device.Some? then device.value.hash else shared.value.hash;
      NewHash(W(), hash, device.Some?);
      HashIsNew(W(), st, hash);
      KnownIgnoresHashes(W(), hash, device.Some?);
      ContinuesWithHash(W(), st, hash, device.Some?);
      h := h.(hashes := h.hashes[hash := device.Some?]);
      if device.Some? {
        NewDeviceContinues(W(), st, device.value);
        st := st.(challenges := st.challenges + [device.value]);
      } else {
        NewSharedContinues(W(), st, shared.value);
        st := st.(shared := st.shared + [shared.value]);
      }
      ReplaceJournal(W(), st);
      KnownIgnoresJournal(W(), st);
      s := Save(st, h);
    }

    /** revoke: a used per-device challenge cannot be revoked; a shared one stops issuing. */
    method Revoke(hash: string) returns (s: Status)
      requires Inv(W())
      modifies this`journal, this`h
      ensures Inv(W()) && h == old(h) && Known(W()) == Known(old(W()))
      ensures journal == old(journal) || Revoked(old(journal), journal, hash)
      ensures s.Done? ==> Revoked(old(journal), journal, hash)
      ensures !Revocable(old(journal), hash) ==> !s.Done? && journal == old(journal)
      ensures healthy ==> (s.Done? <==> Revocable(old(journal), hash))
      ensures (exists c :: c in old(journal).challenges && c.hash == hash && c.issue.Some?) ==>
              !s.Done? && journal == old(journal)
    {
      hide Inv, Known, Continues, Revocable, Revoked;
      s := Load();
      if !s.Done? {
        return;
      }
      var st := journal;
      for i := 0 to |st.challenges|
        invariant journal == old(journal) && h == old(h)
        invariant forall j :: 0 <= j < i ==> st.challenges[j].hash != hash
      {
        if st.challenges[i].hash == hash {
          DeviceRevocable(W(), i);
          if st.challenges[i].issue.Some? {
            return Failed;
          }
          RevokeDeviceContinues(W(), i);
          ReplaceJournal(W(), WithChallenge(st, i, st.challenges[i].(revoked := true)));
          KnownIgnoresJournal(W(), WithChallenge(st, i, st.challenges[i].(revoked := true)));
          s := Save(WithChallenge(st, i, st.challenges[i].(revoked := true)), h);
          return;
        }
      }
      for k := 0 to |st.shared|
        invariant journal == old(journal) && h == old(h)
        invariant forall j :: 0 <= j < k ==> st.shared[j].hash != hash
      {
        if st.shared[k].hash == hash {
          SharedRevocable(st, k);
          RevokeSharedContinues(W(), k);
          ReplaceJournal(W(), WithShared(st, k, st.shared[k].(revoked := true)));
          KnownIgnoresJournal(W(), WithShared(st, k, st.shared[k].(revoked := true)));
          s := Save(WithShared(st, k, st.shared[k].(revoked := true)), h);
          return;
        }
      }
      NotRevocable(st, hash);
      return Failed;
    }

    /** deleteChallenge: only revoked or expired challenges, and none that recovery still needs. */
    method DeleteChallenge(hash: string) returns (s: Status)
      requires Inv(W())
      modifies this`journal, this`clock, this`h
      ensures Inv(W()) && h == old(h) && Known(W()) == Known(old(W()))
      ensures Pending(journal) == Pending(old(journal))
      ensures journal == old(journal) || Deleted(old(journal), journal, hash, clock)
      ensures s.Done? ==> Deleted(old(journal), journal, hash, clock)
      ensures healthy ==> (s.Done? <==> Deletable(old(journal), hash, clock))
    {
      hide Continues, Known;
      s := Load();
      if !s.Done? {
        return;
      }
      var st := journal;
      var now := Now();
      for i := 0 to |st.challenges|
        invariant journal == st == old(journal) && h == old(h) && Inv(W()) && now == clock
        invariant Known(W()) == Known(old(W()))
        invariant forall j :: 0 <= j < i ==> st.challenges[j].hash != hash
      {
        var c := st.challenges[i];
        if c.hash == hash {
          OnlyChallenge(W(), i);
          assert c in st.challenges;
          if c.issue.Some? || !(c.revoked || now > c.expires) {
            return Failed;
          }
          DeleteDeviceContinues(W(), i);
          DeletionKeepsPending(W(), WithoutChallenge(st, i));
          ReplaceJournal(W(), WithoutChallenge(st, i));
          KnownIgnoresJournal(W(), WithoutChallenge(st, i));
          s := Save(WithoutChallenge(st, i), h);
          return;
        }
      }
      for k := 0 to |st.shared|
        invariant journal == st == old(journal) && h == old(h) && Inv(W()) && now == clock
        invariant Known(W()) == Known(old(W()))
        invariant forall j :: 0 <= j < k ==> st.shared[j].hash != hash
      {
        var c := st.shared[k];
        if c.hash == hash {
          OnlyShared(W(), k);
          assert c in st.shared;
          if !(c.revoked || now > c.expires) {
            return Failed;
          }
          var unpublished := AnyUnpublished(c.issuances);
          if unpublished {
            return Failed;
          }
          DeleteSharedContinues(W(), k);
          DeletionKeepsPendingShared(W(), k);
          ReplaceJournal(W(), WithoutShared(st, k));
          KnownIgnoresJournal(W(), WithoutShared(st, k));
          s := Save(WithoutShared(st, k), h);
          return;
        }
      }
      return Failed;
    }

    /** selectCA, given that the CA is usable and unlocked. */
    method SelectCa(id: string, unlocked: bool) returns (s: Status)
      requires Inv(W())
      modifies this`journal, this`h
      ensures Inv(W()) && h == old(h) && Known(W()) == Known(old(W()))
      ensures journal == old(journal) || (id in cas && unlocked && journal == old(journal).(ca := id))
      ensures s.Done? ==> id in cas && unlocked && journal == old(journal).(ca := id)
      ensures healthy ==> (s.Done? <==> id in cas && unlocked)
    {
      s := Load();
      if !s.Done? {
        return;
      }
      if id !in cas || !unlocked {
        return Failed;
      }
      SelectContinues(W(), id);
      ReplaceJournal(W(), journal.(ca := id));
      s := Save(journal.(ca := id), h);
    }

    /** Startup: committed issuances are recovered before anything is served. */
    method Startup() returns (s: Status)
      requires Inv(W())
      modifies this`journal, this`pems, this`index, this`h
      ensures Inv(W()) && h == old(h) && Known(W()) == Known(old(W()))
      ensures s.Done? ==>
                && Pending(journal) == {} && Serials(index) == Serials(old(index)) + Pending(old(journal))
                && Pending(old(journal)) <= pems.Keys
      ensures Extends(old(index), index, Pending(old(journal)))
      ensures s.Done? ==> PendingCas(old(journal)) <= cas
      ensures healthy ==> (s.Done? <==> PendingCas(old(journal)) <= cas)
    {
      s := Load();
      if !s.Done? {
        return;
      }
      var st;
      s, st := Recover(journal);
    }

    // ----- Deletion -----

    /**
      DeleteCert: pending issuances are reconciled first, so none is mistaken for
      unfinished later, and then exactly the one leaf goes.
      */
    method DeleteCert(serial: string) returns (s: Status)
      requires Inv(W())
      modifies this`journal, this`pems, this`index, this`trash, this`dirs, this`cas, this`h
      ensures Inv(W()) && Later(old(h), h) && Known(W()) == Known(old(W())) && h.hashes == old(h).hashes
      ensures s.Done? ==>
                && ValidSerial(serial) && h == old(h).(deleted := old(h).deleted + {serial})
                && serial in Serials(old(index)) + Pending(old(journal))
                && Serials(index) == Serials(old(index)) + Pending(old(journal)) - {serial}
                && serial !in pems && serial in Serials(trash) && dirs == old(dirs)
      ensures healthy ==>
                (s.Done? <==>
                  && PendingCas(old(journal)) <= old(cas) && ValidSerial(serial)
                  && (IsLeafSerial(old(index), serial) || serial in Pending(old(journal))))
    {
      hide Inv, Known, Pending, PendingCas, Extends, IsLeafSerial;
      hide Serials, Kept, MovedCas, AllInPlace, CaTree.LeafSerials;
      PendingAreCommitted(W());
      s := Startup();
      if !s.Done? {
        return;
      }
      Reconciled(W(), old(index), Pending(old(journal)), serial);
      if !ValidSerial(serial) {
        return Failed;
      }
      s := Load();
      if !s.Done? {
        return;
      }
      ghost var before := index;
      for i := 0 to |index|
        invariant Inv(W()) && h == old(h) && Known(W()) == Known(old(W())) && Pending(journal) == {} && index == before
        invariant dirs == old(dirs) && cas == old(cas) && trash == old(trash)
        invariant forall j :: 0 <= j < i ==> index[j].serial != serial || !index[j].IsLeaf()
      {
        var r := index[i];
        if r.serial == serial && r.IsLeaf() {
          TrashedLeaf(before, i, old(trash), dirs);
          s := Trash([r]);
          return;
        }
      }
      NoLeaf(before, serial);
      return Failed;
    }

    /**
      DeleteCA: the subtree of the reconciled index, so that it includes every committed
      certificate, even one whose record was still pending.  Even with working storage it
      fails, part of the way through, when the directory of a CA below is missing.
      */
    method DeleteCa(id: string) returns (s: Status, ghost before: seq<Record>, ghost sub: Subtree)
      requires Inv(W())
      modifies this`journal, this`pems, this`index, this`trash, this`dirs, this`cas, this`h
      ensures Inv(W()) && Later(old(h), h) && Known(W()) == Known(old(W())) && h.hashes == old(h).hashes
      ensures s.Done? ==>
                var gone := Serials(sub.cas + sub.certs);
                && id != CA_ROOT && IsSubtree(before, id, sub)
                && Serials(before) == Serials(old(index)) + Pending(old(journal))
                && index == Kept(before, gone) && h == old(h).(deleted := old(h).deleted + gone)
                && trash == old(trash) + sub.cas + sub.certs && dirs == old(dirs) - MovedCas(sub.cas + sub.certs)
      ensures dirs <= old(dirs)
      ensures healthy ==>
                (s.Done? <==> PendingCas(old(journal)) <= old(cas) && CaDeletable(old(index), old(dirs), id))
    {
      hide Inv, Known, IsSubtree, Pending, PendingCas, Extends, CaDeletable;
      PendingAreCommitted(W());
      before, sub := [], Subtree([], []);
      s := Startup();
      if !s.Done? {
        return;
      }
      ReconciledDeletable(W(), old(index), dirs, Pending(old(journal)), id);
      NotDeletable(index, dirs, id);
      if !(id == CA_ROOT || id == CA_INTERMEDIATE || ValidSerial(id)) || id !in dirs {
        return Failed, before, sub;
      }
      s := Load();
      if !s.Done? {
        return;
      }
      before := index;
      var found := CaSubtree(index, id);
      if found.Err? {
        return Failed, before, sub;
      }
      sub := found.value;
      SubtreeParts(index, id, found.value);
      SubtreeDeletable(index, dirs, id, found.value);
      s := Trash(found.value.cas + found.value.certs);
      assert old(trash) + (sub.cas + sub.certs) == old(trash) + sub.cas + sub.certs;
    }

    /**
      trash: directories, the trash index, one rename per CA directory or PEM, and the
      live index last.  Only that last step deletes; whatever stops earlier leaves the
      records in the live index.
      */
    method Trash(removed: seq<Record>) returns (s: Status)
      requires Inv(W()) && Pending(journal) == {} && forall r :: r in removed ==> r in index
      modifies this`pems, this`index, this`trash, this`dirs, this`cas, this`h
      ensures Inv(W()) && Later(old(h), h) && Known(W()) == Known(old(W())) && h.hashes == old(h).hashes
      ensures (index == old(index) && h == old(h))
           || (&& index == Kept(old(index), Serials(removed))
               && h == old(h).(deleted := old(h).deleted + Serials(removed)))
      ensures s.Done? ==>
                && index == Kept(old(index), Serials(removed))
                && h == old(h).(deleted := old(h).deleted + Serials(removed))
                && trash == old(trash) + removed && pems == old(pems) - CaTree.LeafSerials(removed)
                && dirs == old(dirs) - MovedCas(removed) && cas == old(cas) - MovedCas(removed)
      ensures dirs <= old(dirs)
      ensures healthy ==> (s.Done? <==> AllInPlace(removed, old(dirs)))
    {
      hide Inv, Known, MovedCas, Kept, AllInPlace;
      var effect;
      s, effect := Fate(healthy); // directories
      if !s.Done? {
        return;
      }
      s, effect := Fate(healthy); // trash index
      if effect {
        AppendTrash(W(), removed);
        KnownTrash(W(), removed);
        trash := trash + removed;
      }
      if !s.Done? {
        return;
      }
      SerialsConcat(old(trash), removed);
      s := MoveFiles(removed);
      if !s.Done? {
        return;
      }
      var kept := Filter(index, removed);
      s, effect := Fate(healthy); // live index
      if effect {
        DropRecords(W(), Serials(removed));
        KnownDrop(W(), Serials(removed));
        index := kept;
        h := h.(deleted := h.deleted + Serials(removed));
      }
    }

    /** The renames of trash, one per CA directory or PEM. */
    method MoveFiles(removed: seq<Record>) returns (s: Status)
      requires Inv(W()) && Serials(removed) <= Serials(trash)
      modifies this`pems, this`dirs, this`cas
      ensures Inv(W()) && Known(W()) == Known(old(W()))
      ensures s.Done? ==>
                && pems == old(pems) - CaTree.LeafSerials(removed)
                && dirs == old(dirs) - MovedCas(removed) && cas == old(cas) - MovedCas(removed)
      ensures dirs <= old(dirs)
      ensures healthy ==> (s.Done? <==> AllInPlace(removed, old(dirs)))
    {
      hide Inv, Known, AllInPlace;
      NoneMissing(removed, dirs);
      s := Done;
      for i := 0 to |removed|
        invariant Inv(W()) && Known(W()) == Known(old(W())) && s.Done?
        invariant pems == old(pems) - CaTree.LeafSerials(removed[..i])
        invariant dirs == old(dirs) - MovedCas(removed[..i]) && cas == old(cas) - MovedCas(removed[..i])
        invariant AllInPlace(removed[..i], old(dirs))
      {
        MoveOne(removed, i);
        OneMoreInPlace(removed, i, old(dirs));
        assert removed[i].serial in Serials(removed);
        var effect;
        s, effect := Fate(healthy);
        if !removed[i].IsLeaf() && removed[i].CaId() !in dirs {
          s, effect := Failed, false; // only the files of a leaf may be absent
        }
        if effect {
          if removed[i].IsLeaf() {
            ScepInvariant.RemovePem(W(), removed[i].serial);
            KnownPem(W(), removed[i].serial);
            pems := pems - {removed[i].serial};
          } else {
            dirs, cas := dirs - {removed[i].CaId()}, cas - {removed[i].CaId()};
          }
        }
        if !s.Done? {
          return;
        }
      }
      assert removed[..|removed|] == removed;
    }

    /** Another operation adds a record under a fresh serial. */
    method AddForeign(r: Record)
      requires Inv(W()) && r.serial !in Known(W())
      modifies this`index
      ensures Inv(W()) && Known(W()) == Known(old(W())) + {r.serial}
    {
      AppendForeign(W(), r);
      SerialsAppend(index, r);
      index := index + [r];
    }

    // ----- Any run -----

    /**
      Any sequence of operations, serialized as the service's lock does, with storage
      that may fail or lose the process in any step of any of them and CA directories
      that come and go.  A lost process only means that the next operation is a restart.
      */
    method Run(ops: seq<Op>)
      requires Inv(W()) && Fresh(ops, Known(W()), h.hashes.Keys, text)
      modifies this
      ensures Inv(W()) && Later(old(h), h)
    {
      for i := 0 to |ops|
        invariant Inv(W()) && Later(old(h), h)
        invariant Fresh(ops[i..], Known(W()), h.hashes.Keys, text)
      {
        hide Inv, Known;
        ghost var known, hashes := Known(W()), h.hashes.Keys;
        FreshFirst(ops[i..], known, hashes, text);
        assert ops[i..][0] == ops[i] && ops[i..][1..] == ops[i + 1..];
        ghost var before := h;
        healthy := *;
        Do(ops[i]);
        LaterTransitive(old(h), before, h);
        FreshRest(ops[i..], known, hashes, Known(W()), h.hashes.Keys, text);
      }
    }

    method Do(op: Op)
      requires Inv(W()) && op.Sensible(text) && op.Serials() !! Known(W()) && op.Hashes() !! h.hashes.Keys
      modifies this
      ensures Inv(W()) && Later(old(h), h)
      ensures Known(W()) <= Known(old(W())) + op.Serials() && h.hashes.Keys <= old(h).hashes.Keys + op.Hashes()
    {
      hide Inv, Known;
      match op
      case EnrollOp(q, ready, parsed, env) =>
        var reply := Enroll(q, ready, parsed, env);
      case CreateDeviceOp(c, valid) =>
        var s := Create(Some(c), None, valid);
      case CreateSharedOp(c, valid) =>
        var s := Create(None, Some(c), valid);
      case RevokeOp(hash) =>
        var s := Revoke(hash);
      case DeleteChallengeOp(hash) =>
        var s := DeleteChallenge(hash);
      case SelectOp(id, unlocked) =>
        var s := SelectCa(id, unlocked);
      case DeleteCertOp(serial) =>
        var s := DeleteCert(serial);
      case DeleteCaOp(id) =>
        var s, before, sub := DeleteCa(id);
      case RestartOp =>
        var s := Startup();
      case ForeignOp(r) =>
        AddForeign(r);
      case CasOp(newDirs, newCas) =>
        dirs, cas := newDirs, newCas;
    }
  }

  datatype Op =
    | EnrollOp(request: Request, ready: bool, parsed: bool, env: Env)
    | CreateDeviceOp(device: Challenge, valid: bool)
    | CreateSharedOp(shared: Shared, valid: bool)
    | RevokeOp(hash: string)
    | DeleteChallengeOp(hash: string)
    | SelectOp(id: string, unlocked: bool)
    | DeleteCertOp(serial: string)
    | DeleteCaOp(id: string)
    | RestartOp
    | ForeignOp(record: Record)
    | CasOp(dirs: set<string>, cas: set<string>)
  {
    /** A challenge is created unused; a request names nothing twice; addresses are written in one way. */
    ghost predicate Sensible(text: Addr -> string) {
      && (CreateDeviceOp? ==> device.issue.None?) && (CreateSharedOp? ==> shared.issuances == [])
      && (EnrollOp? ==> DistinctNames(request) && env.text == text)
    }

    function Serials(): set<string> {
      if EnrollOp? then {env.serial} else if ForeignOp? then {record.serial} else {}
    }

    function Hashes(): set<string> {
      if CreateDeviceOp? then {device.hash} else if CreateSharedOp? then {shared.hash} else {}
    }
  }

  /** Random serials and secrets are used nowhere before and not twice. */
  ghost predicate Fresh(ops: seq<Op>, known: set<string>, hashes: set<string>, text: Addr -> string) {
    && (forall i :: 0 <= i < |ops| ==> ops[i].Sensible(text) && ops[i].Serials() !! known && ops[i].Hashes() !! hashes)
    && (forall i, j :: 0 <= i < j < |ops| ==>
            ops[i].Serials() !! ops[j].Serials() && ops[i].Hashes() !! ops[j].Hashes())
  }

  lemma FreshFirst(ops: seq<Op>, known: set<string>, hashes: set<string>, text: Addr -> string)
    requires Fresh(ops, known, hashes, text) && ops != []
    ensures ops[0].Sensible(text) && ops[0].Serials() !! known && ops[0].Hashes() !! hashes
  {
  }

  lemma FreshRest(
    ops: seq<Op>, known: set<string>, hashes: set<string>, known': set<string>, hashes': set<string>,
    text: Addr -> string)
    requires Fresh(ops, known, hashes, text) && ops != []
    requires known' <= known + ops[0].Serials() && hashes' <= hashes + ops[0].Hashes()
    ensures Fresh(ops[1..], known', hashes', text)
  {
    var rest := ops[1..];
    forall i | 0 <= i < |rest|
      ensures rest[i].Sensible(text) && rest[i].Serials() !! known' && rest[i].Hashes() !! hashes'
    {
      assert rest[i] == ops[i + 1];
      assert ops[0].Serials() !! ops[i + 1].Serials() && ops[0].Hashes() !! ops[i + 1].Hashes();
      assert ops[i + 1].Serials() !! known && ops[i + 1].Hashes() !! hashes;
    }
    forall i, j | 0 <= i < j < |rest|
      ensures rest[i].Serials() !! rest[j].Serials() && rest[i].Hashes() !! rest[j].Hashes()
    {
      assert rest[i] == ops[i + 1] && rest[j] == ops[j + 1];
    }
  }

  lemma LaterTransitive(a: History, b: History, c: History)
    requires Later(a, b) && Later(b, c)
    ensures Later(a, c)
  {
  }

  function Appended(st: State, device: Option<Challenge>, shared: Option<Shared>): State {
    st.(challenges := st.challenges + (if device.Some? then [device.value] else []),
        shared := st.shared + (if shared.Some? then [shared.value] else []))
  }

  /** The journal after a creation: recovered, pruned, and with the new challenge at the end. */
  function Created(st: State, device: Option<Challenge>, shared: Option<Shared>, now: int): State {
    Appended(Prune(Publish(st), now), device, shared)
  }

  /** next is st with the one challenge revoked; a used per-device challenge never is. */
  ghost predicate Revoked(st: State, next: State, hash: string) {
    || (exists i: nat :: i < |st.challenges| && st.challenges[i].hash == hash && st.challenges[i].issue.None?
          && next == WithChallenge(st, i, st.challenges[i].(revoked := true)))
    || (exists k: nat :: k < |st.shared| && st.shared[k].hash == hash
          && next == WithShared(st, k, st.shared[k].(revoked := true)))
  }

  ghost predicate Revocable(st: State, hash: string) {
    || (exists c :: c in st.challenges && c.hash == hash && c.issue.None?)
    || (exists c :: c in st.shared && c.hash == hash)
  }

  ghost predicate Deletable(st: State, hash: string, now: int) {
    || (exists c :: c in st.challenges && c.hash == hash && c.issue.None? && (c.revoked || now > c.expires))
    || (exists c :: c in st.shared && c.hash == hash && (c.revoked || now > c.expires) && AllArePublished(c))
  }

  predicate AllArePublished(c: Shared) {
    forall i :: i in c.issuances ==> i.iss.published
  }

  ghost predicate IsLeafSerial(recs: seq<Record>, serial: string) {
    exists r :: r in recs && r.IsLeaf() && r.serial == serial
  }

  ghost predicate IsIntermediateId(recs: seq<Record>, id: string) {
    exists r :: r in recs && r.kind.Intermediate? && r.CaId() == id
  }

  /** next is st without the one challenge, which was revoked or expired. */
  ghost predicate Deleted(st: State, next: State, hash: string, now: int) {
    || (exists i: nat :: i < |st.challenges| && st.challenges[i].hash == hash && st.challenges[i].issue.None?
          && (st.challenges[i].revoked || now > st.challenges[i].expires) && next == WithoutChallenge(st, i))
    || (exists k: nat :: k < |st.shared| && st.shared[k].hash == hash
          && (st.shared[k].revoked || now > st.shared[k].expires) && next == WithoutShared(st, k))
  }

  /** Each CA directory is there when its rename comes. */
  ghost predicate AllInPlace(removed: seq<Record>, dirs: set<string>) {
    && MovedCas(removed) <= dirs
    && forall i, j :: 0 <= i < j < |removed| && !removed[i].IsLeaf() && !removed[j].IsLeaf() ==>
         removed[i].CaId() != removed[j].CaId()
  }

  lemma NoneMissing(removed: seq<Record>, dirs: set<string>)
    ensures AllInPlace(removed[..0], dirs)
  {
  }

  lemma OneMoreInPlace(removed: seq<Record>, i: nat, dirs: set<string>)
    requires i < |removed| && AllInPlace(removed[..i], dirs)
    ensures var r := removed[i];
            && (AllInPlace(removed[..i + 1], dirs) <==> r.IsLeaf() || r.CaId() in dirs - MovedCas(removed[..i]))
            && (AllInPlace(removed, dirs) ==> AllInPlace(removed[..i + 1], dirs))
  {
    MoveOne(removed, i);
    assert removed[..i + 1] == removed[..i] + [removed[i]];
    if !removed[i].IsLeaf() && removed[i].CaId() in MovedCas(removed[..i]) {
      var q :| q in removed[..i] && !q.IsLeaf() && q.CaId() == removed[i].CaId();
      var k :| 0 <= k < i && removed[k] == q;
      assert removed[..i + 1][k] == q && removed[..i + 1][i] == removed[i];
    }
    forall k | 0 <= k < i && !removed[k].IsLeaf()
      ensures removed[k].CaId() in MovedCas(removed[..i])
    {
      assert removed[..i][k] == removed[k];
    }
    if AllInPlace(removed, dirs) {
      assert forall r :: r in removed[..i + 1] ==> r in removed;
    }
  }

  /** What DeleteCA needs besides storage: one record of the CA, and every directory of the subtree in place. */
  ghost predicate CaDeletable(recs: seq<Record>, dirs: set<string>, id: string) {
    && id != CA_ROOT && (id == CA_INTERMEDIATE || ValidSerial(id))
    && IsIntermediateId(recs, id) && Sole(recs, id)
    && forall x :: Descends(recs, id, x) ==> x in dirs
  }

  lemma NotDeletable(recs: seq<Record>, dirs: set<string>, id: string)
    ensures CaDeletable(recs, dirs, id) ==>
              && id in dirs && id != CA_ROOT && (id == CA_INTERMEDIATE || ValidSerial(id))
              && IsIntermediateId(recs, id)
  {
    DescendsReflexive(recs, id);
  }

  lemma SubtreeDeletable(recs: seq<Record>, dirs: set<string>, id: string, sub: Subtree)
    requires IsSubtree(recs, id, sub) && id != CA_ROOT && (id == CA_INTERMEDIATE || ValidSerial(id))
    ensures AllInPlace(sub.cas + sub.certs, dirs) <==> CaDeletable(recs, dirs, id)
  {
    hide Descends, Sole, UniqueCaIds, HoldsAllWithIds;
    var removed := sub.cas + sub.certs;
    forall r | r in sub.certs
      ensures r.IsLeaf()
    {
      LeavesIssuedByMembers(recs, Ids(sub.cas), r);
    }
    assert sub.cas[0] in sub.cas;
    assert MovedCas(removed) == Ids(sub.cas);
    forall i | 0 <= i < |removed|
      ensures !removed[i].IsLeaf() <==> i < |sub.cas|
    {
      if i < |sub.cas| {
        assert removed[i] == sub.cas[i] && sub.cas[i] in sub.cas;
      } else {
        assert removed[i] == sub.certs[i - |sub.cas|];
      }
    }
    if AllInPlace(removed, dirs) {
      forall i, j | 0 <= i < j < |sub.cas|
        ensures sub.cas[i].CaId() != sub.cas[j].CaId()
      {
        assert removed[i] == sub.cas[i] && removed[j] == sub.cas[j];
      }
    }
  }

  /**
    An interrupted deletion sticks: once the directory of a CA is in the trash while its
    record is still in the index, neither it nor any CA above it can be deleted.
    */
  lemma InterruptedDeletionSticks(recs: seq<Record>, dirs: set<string>, id: string, above: string)
    requires id !in dirs && Descends(recs, above, id)
    ensures !CaDeletable(recs, dirs, above) && !CaDeletable(recs, dirs, id)
  {
    DescendsReflexive(recs, id);
  }

  /** Such a state exists: b below a could be deleted, and after the renames without the index write neither can. */
  lemma InterruptedDeletionWitness()
    ensures var root := Record("1", RootCa, "", "", false, 0, 1, true, false, "");
            var a := Record("a", Intermediate, CA_ROOT, "a", true, 0, 1, true, false, "");
            var b := Record("b", Intermediate, "a", "b", false, 0, 1, true, false, "");
            var recs, dirs := [root, a, b], {CA_ROOT, "a", "b"};
            && CaDeletable(recs, dirs, "b") && CaDeletable(recs, dirs, "a")
            && !CaDeletable(recs, dirs - MovedCas([b]), "b") && !CaDeletable(recs, dirs - MovedCas([b]), "a")
  {
    var root := Record("1", RootCa, "", "", false, 0, 1, true, false, "");
    var a := Record("a", Intermediate, CA_ROOT, "a", true, 0, 1, true, false, "");
    var b := Record("b", Intermediate, "a", "b", false, 0, 1, true, false, "");
    var recs, dirs := [root, a, b], {CA_ROOT, "a", "b"};
    assert recs[0] == root && recs[1] == a && recs[2] == b;
    assert "a"[0] != "b"[0] && |CA_ROOT| == 4 && ValidSerial("a") && ValidSerial("b");
    DescendsReflexive(recs, "a");
    DescendsStep(recs, "a", "a", b);
    ClosedDescends(recs, {"b"}, "b");
    ClosedDescends(recs, {"a", "b"}, "a");
    InterruptedDeletionSticks(recs, dirs - MovedCas([b]), "b", "a");
  }

  lemma ClosedDescends(recs: seq<Record>, ids: set<string>, id: string)
    requires ClosedDown(recs, ids) && id in ids
    ensures forall x :: Descends(recs, id, x) ==> x in ids
  {
    forall x | Descends(recs, id, x)
      ensures x in ids
    {
      var path :| IsDescent(recs, path) && path[0] == id && path[|path| - 1] == x;
      ClosedContainsDescent(recs, ids, path);
    }
  }

  /** The CA directories that deleting these records moves. */
  function MovedCas(recs: seq<Record>): set<string> {
    set r | r in recs && !r.IsLeaf() :: r.CaId()
  }

  lemma MoveOne(recs: seq<Record>, i: nat)
    requires i < |recs|
    ensures MovedCas(recs[..i + 1]) == MovedCas(recs[..i]) + (if recs[i].IsLeaf() then {} else {recs[i].CaId()})
    ensures CaTree.LeafSerials(recs[..i + 1]) ==
            CaTree.LeafSerials(recs[..i]) + (if recs[i].IsLeaf() then {recs[i].serial} else {})
  {
    assert recs[..i + 1] == recs[..i] + [recs[i]];
  }

  /** after is before with records under added serials at the end. */
  ghost predicate Extends(before: seq<Record>, after: seq<Record>, added: set<string>) {
    before <= after && forall k :: |before| <= k < |after| ==> after[k].serial in added
  }

  lemma ExtendsTwice(a: seq<Record>, b: seq<Record>, c: seq<Record>, added: set<string>)
    requires Extends(a, b, added) && Extends(b, c, added)
    ensures Extends(a, c, added)
  {
  }

  lemma PendingCasKnown(st: State, cas: set<string>)
    requires forall c :: c in st.challenges && Unpublished(c) ==> c.ca in cas
    requires forall m :: 0 <= m < |st.shared| ==> forall i :: i in st.shared[m].issuances && !i.iss.published ==>
            st.shared[m].ca in cas
    ensures PendingCas(st) <= cas
  {
  }

  lemma ExtendsSerials(before: seq<Record>, after: seq<Record>, added: set<string>)
    requires Extends(before, after, added)
    ensures Serials(before) <= Serials(after) <= Serials(before) + added
  {
    forall r | r in before
      ensures r in after
    {
      var k :| 0 <= k < |before| && before[k] == r;
      assert after[k] == r;
    }
  }

  /** The index with the record, unless it has one with its serial. */
  function WithRecord(recs: seq<Record>, r: Record): seq<Record> {
    if r.serial in Serials(recs) then recs else recs + [r]
  }

  method AnyUnpublished(issued: seq<SharedIssuance>) returns (r: bool)
    ensures r <==> exists i :: i in issued && !i.iss.published
  {
    for j := 0 to |issued|
      invariant forall m :: 0 <= m < j ==> issued[m].iss.published
    {
      if !issued[j].iss.published {
        return true;
      }
    }
    return false;
  }

  // ----- pruneSCEP -----

  /** pruneSCEP: filters both lists; the newest issuance of each identity survives. */
  method PruneAll(st: State, now: int) returns (r: State)
    ensures r == Prune(st, now)
  {
    var kept := KeepDevices(st.challenges, now);
    var shared := KeepShared(st.shared, now);
    return st.(challenges := kept, shared := shared);
  }

  method KeepDevices(cs: seq<Challenge>, now: int) returns (kept: seq<Challenge>)
    ensures kept == PruneChallenges(cs, now)
  {
    kept := [];
    for i := 0 to |cs|
      invariant kept + PruneChallenges(cs[i..], now) == PruneChallenges(cs, now)
    {
      var c := cs[i];
      assert cs[i..][1..] == cs[i + 1..];
      var until := c.expires + RETENTION;
      if c.issue.Some? {
        until := c.issue.value.used + RETENTION;
      }
      if now < until || (c.issue.Some? && !c.issue.value.published) {
        kept := kept + [c];
      }
    }
  }

  lemma SharedStep(ss: seq<Shared>, i: nat, now: int)
    requires i < |ss|
    ensures var s := ss[i].(issuances := PruneIssuances(ss[i].issuances, 0, now));
            PruneShared(ss[i..], now)
            == (if now < s.expires + RETENTION || s.issuances != [] then [s] else []) + PruneShared(ss[i + 1..], now)
  {
    hide PruneIssuances;
    assert ss[i..][1..] == ss[i + 1..];
  }

  method KeepShared(ss: seq<Shared>, now: int) returns (kept: seq<Shared>)
    ensures kept == PruneShared(ss, now)
  {
    hide PruneShared, PruneIssuances;
    kept := [];
    assert ss[0..] == ss;
    for i := 0 to |ss|
      invariant kept + PruneShared(ss[i..], now) == PruneShared(ss, now)
    {
      SharedStep(ss, i, now);
      var issuances := PruneOne(ss[i].issuances, now);
      var s := ss[i].(issuances := issuances);
      if now < s.expires + RETENTION || |issuances| > 0 {
        kept := kept + [s];
      }
    }
    NoSharedRest(ss, now);
  }

  lemma NoSharedRest(ss: seq<Shared>, now: int)
    ensures PruneShared(ss[|ss|..], now) == []
  {
  }

  /** For each identity seen so far, the index of its first latest issuance. */
  ghost predicate NewestMap(all: seq<SharedIssuance>, upTo: nat, newest: map<string, nat>)
    requires upTo <= |all|
  {
    && (forall id :: id in newest ==>
            newest[id] < upTo && all[newest[id]].identity == id && Newest(all[..upTo], newest[id]))
    && (forall k :: 0 <= k < upTo ==> all[k].identity in newest)
  }

  method PruneOne(all: seq<SharedIssuance>, now: int) returns (kept: seq<SharedIssuance>)
    ensures kept == PruneIssuances(all, 0, now)
  {
    hide Newest, PruneIssuances, KeepIssuance;
    var newest: map<string, nat> := map[];
    for j := 0 to |all|
      invariant NewestMap(all, j, newest)
    {
      var iss := all[j];
      NewestGrows(all, j, newest);
      if iss.identity !in newest || iss.iss.used > all[newest[iss.identity]].iss.used {
        newest := newest[iss.identity := j];
      }
    }
    kept := KeepMarked(all, newest, now);
  }

  lemma PruneStep(all: seq<SharedIssuance>, j: nat, now: int)
    requires j < |all|
    ensures PruneIssuances(all, j, now) ==
            (if KeepIssuance(all, j, now) then [all[j]] else []) + PruneIssuances(all, j + 1, now)
  {
  }

  method KeepMarked(all: seq<SharedIssuance>, newest: map<string, nat>, now: int) returns (kept: seq<SharedIssuance>)
    requires NewestMap(all, |all|, newest)
    ensures kept == PruneIssuances(all, 0, now)
  {
    hide NewestMap, Newest, PruneIssuances;
    kept := [];
    for j := 0 to |all|
      invariant kept + PruneIssuances(all, j, now) == PruneIssuances(all, 0, now)
    {
      NewestDecides(all, newest, j);
      PruneStep(all, j, now);
      if now < all[j].iss.used + RETENTION || !all[j].iss.published || newest[all[j].identity] == j {
        kept := kept + [all[j]];
      }
    }
    NothingLeft(all, now);
  }

  lemma NothingLeft(all: seq<SharedIssuance>, now: int)
    ensures PruneIssuances(all, |all|, now) == []
  {
  }

  lemma NewestGrows(all: seq<SharedIssuance>, j: nat, newest: map<string, nat>)
    requires j < |all| && NewestMap(all, j, newest)
    ensures var id := all[j].identity;
            NewestMap(all, j + 1,
                  if id !in newest || all[j].iss.used > all[newest[id]].iss.used then newest[id := j] else newest)
  {
    var id := all[j].identity;
    var next := if id !in newest || all[j].iss.used > all[newest[id]].iss.used then newest[id := j] else newest;
    forall x | x in next
      ensures next[x] < j + 1 && all[next[x]].identity == x && Newest(all[..j + 1], next[x])
    {
      forall k | 0 <= k < j + 1 && all[k].identity == x
        ensures all[k].iss.used <= all[next[x]].iss.used
        ensures k < next[x] ==> all[k].iss.used < all[next[x]].iss.used
      {
        if x in newest {
          assert Newest(all[..j], newest[x]);
          if k < j { assert all[..j][k] == all[k]; }
        } else {
          assert k == j;
        }
      }
    }
  }

  lemma NewestDecides(all: seq<SharedIssuance>, newest: map<string, nat>, j: nat)
    requires j < |all| && NewestMap(all, |all|, newest)
    ensures all[j].identity in newest && (newest[all[j].identity] == j <==> Newest(all, j))
  {
    var k := newest[all[j].identity];
    assert all[..|all|] == all;
    assert Newest(all, k);
  }

  // ----- Lemmas of the administration -----

  lemma HashIsNew(w: World, st: State, hash: string)
    requires Inv(w) && Continues(w, st) && hash !in w.h.hashes
    ensures forall s :: s in w.h.commits ==> w.h.commits[s].hash != hash
    ensures forall x :: x in st.challenges ==> x.hash != hash
    ensures forall x :: x in st.shared ==> x.hash != hash
  {
    forall s | s in w.h.commits
      ensures w.h.commits[s].hash != hash
    {
      assert CommitOk(w.h, s);
    }
  }

  lemma ContinuesWithHash(w: World, st: State, hash: string, device: bool)
    requires Continues(w, st) && hash !in w.h.hashes
    ensures Continues(w.(h := w.h.(hashes := w.h.hashes[hash := device])), st)
  {
  }

  lemma OnlyChallenge(w: World, i: nat)
    requires Inv(w) && i < |w.journal.challenges|
    ensures forall c :: c in w.journal.challenges && c.hash == w.journal.challenges[i].hash ==>
            c == w.journal.challenges[i]
  {
    SameHashSameChallenge(w.journal.challenges, w.journal.challenges[i]);
  }

  lemma DeviceRevocable(w: World, i: nat)
    requires Inv(w) && i < |w.journal.challenges|
    ensures var c := w.journal.challenges[i];
            && (Revocable(w.journal, c.hash) <==> c.issue.None?)
            && (forall x :: x in w.journal.challenges && x.hash == c.hash ==> x == c)
            && (c.issue.None? ==> Revoked(w.journal, WithChallenge(w.journal, i, c.(revoked := true)), c.hash))
  {
    OnlyChallenge(w, i);
    assert w.journal.challenges[i] in w.journal.challenges;
  }

  lemma SharedRevocable(st: State, k: nat)
    requires k < |st.shared|
    ensures Revocable(st, st.shared[k].hash)
    ensures Revoked(st, WithShared(st, k, st.shared[k].(revoked := true)), st.shared[k].hash)
  {
    assert st.shared[k] in st.shared;
  }

  lemma NotRevocable(st: State, hash: string)
    requires forall j :: 0 <= j < |st.challenges| ==> st.challenges[j].hash != hash
    requires forall j :: 0 <= j < |st.shared| ==> st.shared[j].hash != hash
    ensures !Revocable(st, hash)
  {
  }

  lemma OnlyShared(w: World, k: nat)
    requires Inv(w) && k < |w.journal.shared|
    ensures forall c :: c in w.journal.shared && c.hash == w.journal.shared[k].hash ==> c == w.journal.shared[k]
    ensures forall c :: c in w.journal.challenges ==> c.hash != w.journal.shared[k].hash
  {
    assert w.journal.shared[k] in w.journal.shared;
  }

  lemma SelectContinues(w: World, id: string)
    requires Inv(w)
    ensures Continues(w, w.journal.(ca := id))
  {
  }

  lemma KnownIgnoresJournal(w: World, st: State)
    ensures Known(w.(journal := st)) == Known(w)
  {
  }

  lemma KnownIgnoresHashes(w: World, hash: string, device: bool)
    ensures Known(w.(h := w.h.(hashes := w.h.hashes[hash := device]))) == Known(w)
  {
  }

  lemma DeletionKeepsPending(w: World, next: State)
    requires Entries(next) == Entries(w.journal)
    ensures Pending(next) == Pending(w.journal)
  {
  }

  lemma DeletionKeepsPendingShared(w: World, k: nat)
    requires Inv(w) && k < |w.journal.shared| && forall i :: i in w.journal.shared[k].issuances ==> i.iss.published
    ensures Pending(WithoutShared(w.journal, k)) == Pending(w.journal)
  {
    var s, next := w.journal.shared[k], WithoutShared(w.journal, k);
    SharedRemoved(w.journal.shared, k);
    SameHashSameShared(w.journal.shared, s);
    forall e
      ensures e in Entries(next) && !e.iss.published <==> e in Entries(w.journal) && !e.iss.published
    {
      if e in SharedEntries(w.journal.shared) && !e.iss.published {
        var x :| x in w.journal.shared && e in IssuanceEntries(x.hash, x.issuances);
        assert x != s;
      }
    }
  }

  lemma KnownTrash(w: World, removed: seq<Record>)
    requires forall r :: r in removed ==> r in w.index
    ensures Known(w.(trash := w.trash + removed)) == Known(w)
  {
    SerialsConcat(w.trash, removed);
    assert Serials(removed) <= Serials(w.index);
  }

  lemma KnownPem(w: World, serial: string)
    requires serial in Serials(w.trash)
    ensures Known(w.(pems := w.pems - {serial})) == Known(w)
  {
  }

  lemma KnownDrop(w: World, gone: set<string>)
    requires gone <= Serials(w.trash) && Serials(Kept(w.index, gone)) == Serials(w.index) - gone
    ensures Known(w.(index := Kept(w.index, gone), h := w.h.(deleted := w.h.deleted + gone))) == Known(w)
  {
  }

  lemma PendingAreCommitted(w: World)
    requires Inv(w)
    ensures Pending(w.journal) <= w.h.commits.Keys
  {
  }

  /** Reconciling adds leaves only, exactly those that were pending. */
  lemma Reconciled(w: World, before: seq<Record>, pending: set<string>, id: string)
    requires Inv(w) && Extends(before, w.index, pending) && pending <= w.h.commits.Keys
    requires Serials(w.index) == Serials(before) + pending
    ensures IsLeafSerial(w.index, id) <==> IsLeafSerial(before, id) || id in pending
    ensures IsIntermediateId(w.index, id) <==> IsIntermediateId(before, id)
  {
    forall r | r in before
      ensures r in w.index
    {
      var k :| 0 <= k < |before| && before[k] == r;
      assert w.index[k] == r;
    }
    forall r | r in w.index && r.serial in pending
      ensures r.IsLeaf()
    {
      assert CommitOk(w.h, r.serial);
    }
  }

  /** Reconciling changes nothing that DeleteCA depends on. */
  lemma ReconciledDeletable(w: World, before: seq<Record>, dirs: set<string>, pending: set<string>, id: string)
    requires Inv(w) && Extends(before, w.index, pending) && pending <= w.h.commits.Keys
    requires Serials(w.index) == Serials(before) + pending
    ensures CaDeletable(w.index, dirs, id) <==> CaDeletable(before, dirs, id)
    ensures IsIntermediateId(w.index, id) <==> IsIntermediateId(before, id)
  {
    hide Inv, Descends;
    Reconciled(w, before, pending, id);
    AddedAreLeaves(w, before, pending);
    SameDescent(before, w.index);
    SoleExtends(before, w.index, id);
  }

  lemma AddedAreLeaves(w: World, before: seq<Record>, pending: set<string>)
    requires Inv(w) && Extends(before, w.index, pending) && pending <= w.h.commits.Keys
    ensures LeavesAdded(before, w.index)
  {
    forall k | |before| <= k < |w.index|
      ensures w.index[k].IsLeaf()
    {
      var r := w.index[k];
      assert r in w.index && CommitOk(w.h, r.serial);
    }
  }

  ghost predicate LeavesAdded(before: seq<Record>, after: seq<Record>) {
    before <= after && forall k :: |before| <= k < |after| ==> after[k].IsLeaf()
  }

  lemma SameDescent(before: seq<Record>, after: seq<Record>)
    requires LeavesAdded(before, after)
    ensures forall id, x :: Descends(after, id, x) <==> Descends(before, id, x)
  {
    forall parent, child
      ensures HasChild(after, parent, child) <==> HasChild(before, parent, child)
    {
      SameChildren(before, after, parent, child);
    }
    hide HasChild;
    forall path
      ensures IsDescent(after, path) <==> IsDescent(before, path)
    {
    }
  }

  lemma SameChildren(before: seq<Record>, after: seq<Record>, parent: string, child: string)
    requires LeavesAdded(before, after)
    ensures HasChild(after, parent, child) <==> HasChild(before, parent, child)
  {
    forall r: Record | r.kind.Intermediate?
      ensures r in after <==> r in before
    {
      SameIntermediates(before, after, r);
    }
  }

  lemma SameIntermediates(before: seq<Record>, after: seq<Record>, r: Record)
    requires LeavesAdded(before, after) && r.kind.Intermediate?
    ensures r in after <==> r in before
  {
    if r in before {
      var k :| 0 <= k < |before| && before[k] == r;
      assert after[k] == r;
    }
  }

  lemma SoleExtends(before: seq<Record>, after: seq<Record>, id: string)
    requires LeavesAdded(before, after)
    ensures Sole(after, id) <==> Sole(before, id)
  {
    forall i, j | 0 <= i < j < |before|
      ensures after[i] == before[i] && after[j] == before[j]
    {
    }
  }

  /** Trashing one leaf moves one serial and no directory. */
  lemma TrashedLeaf(recs: seq<Record>, i: nat, trash: seq<Record>, dirs: set<string>)
    requires i < |recs| && recs[i].IsLeaf()
    ensures var r := recs[i];
            && r in recs && IsLeafSerial(recs, r.serial) && r.serial in Serials(recs)
            && Serials([r]) == CaTree.LeafSerials([r]) == {r.serial} && r.serial in Serials(trash + [r])
            && Serials(Kept(recs, Serials([r]))) == Serials(recs) - {r.serial}
            && MovedCas([r]) == {} && AllInPlace([r], dirs)
  {
    var r := recs[i];
    assert r in recs && r in [r];
    KeptSerials(recs, {r.serial});
    SerialsAppend(trash, r);
  }

  lemma NoLeaf(recs: seq<Record>, serial: string)
    requires forall j :: 0 <= j < |recs| ==> recs[j].serial != serial || !recs[j].IsLeaf()
    ensures !IsLeafSerial(recs, serial)
  {
  }

  lemma KeptSerials(recs: seq<Record>, gone: set<string>)
    ensures Serials(Kept(recs, gone)) == Serials(recs) - gone
  {
    forall r: Record
      ensures r in Kept(recs, gone) <==> r in recs && r.serial !in gone
    {
      KeptMembers(recs, gone, r);
    }
  }

  lemma SubtreeParts(recs: seq<Record>, id: string, sub: Subtree)
    requires IsSubtree(recs, id, sub)
    ensures forall r :: r in sub.cas + sub.certs ==> r in recs
  {
    forall x | x in sub.certs
      ensures x in recs
    {
      LeavesIssuedByMembers(recs, Ids(sub.cas), x);
    }
  }

  /**
    A reply that agrees with a decision.  With failing storage a request may go without
    one, and a retry may be refused because the index could not be read.
    */
  predicate Answers(reply: Reply, d: Decision, healthy: bool) {
    match reply
    case Success(der) => d == Return(der) || (d.Issue? && d.cert == der)
    case Failure => d == Refuse || (!healthy && d.Return?)
    case Unavailable => !healthy
    case Rejected => false
    case Dead => !healthy
  }

  /** allowedSCEPIdentities: every SAN asked for is one of the challenge's, and none is an email address or URI. */
  method AllowedSCEPIdentities(q: Request, c: Challenge) returns (ok: bool)
    ensures ok <==> AllowedIdentities(q, c)
    ensures ok <==> !q.otherSans && NameSet(q.dns) <= NameSet(c.dns) && Addrs(q.ips) <= Addrs(c.ips)
  {
    AllowedIsSubset(q, c);
    if q.otherSans {
      return false;
    }
    ok := AllListed(q.dns, c.dns);
    if ok {
      ok := AllListed(q.ips, c.ips);
    }
  }

  method AllListed<T(==)>(asked: seq<T>, listed: seq<T>) returns (ok: bool)
    ensures ok <==> forall x :: x in asked ==> x in listed
  {
    for i := 0 to |asked|
      invariant forall k :: 0 <= k < i ==> asked[k] in listed
    {
      var found := IsListed(asked[i], listed);
      if !found {
        assert asked[i] in asked;
        return false;
      }
    }
    return true;
  }

  method IsListed<T(==)>(x: T, listed: seq<T>) returns (found: bool)
    ensures found <==> x in listed
  {
    found := false;
    for j := 0 to |listed|
      invariant found <==> x in listed[..j]
    {
      if x == listed[j] {
        found := true;
      }
    }
    assert listed[..|listed|] == listed;
  }

  method FindRetry(issued: seq<SharedIssuance>, q: Request, src: Addr, now: int) returns (r: Option<SharedIssuance>)
    ensures r == FirstRetry(issued, q, src, now)
  {
    for j := 0 to |issued|
      invariant FirstRetry(issued, q, src, now) == FirstRetry(issued[j..], q, src, now)
    {
      assert issued[j..][1..] == issued[j + 1..];
      if IsRetry(issued[j], q, src, now) {
        return Some(issued[j]);
      }
    }
    return None;
  }

  method Limited(issued: seq<SharedIssuance>, identity: string, now: int) returns (r: bool)
    ensures r == RateLimited(issued, identity, now)
  {
    for j := 0 to |issued|
      invariant forall m :: 0 <= m < j ==> !(issued[m].identity == identity && now < issued[m].iss.used + RATE_WINDOW)
    {
      if issued[j].identity == identity && now < issued[j].iss.used + RATE_WINDOW {
        return true;
      }
    }
    return false;
  }

  lemma KnownPlus(w: World, next: State, e: Entry)
    ensures Known(w.(journal := next, h := Committed(w.h, e))) == Known(w) + {EntrySerial(e)}
    ensures EntrySerial(e) !in w.h.commits ==> Later(w.h, Committed(w.h, e))
    ensures w.h.commits.Keys <= Known(w)
  {
  }

  lemma PublishedEntry(st: State, e: Entry)
    requires e in Entries(st)
    ensures PublishEntry(e) in Entries(Publish(st)) && PublishEntry(e).iss.der == e.iss.der
  {
    PublishEntries(st);
  }

  lemma EntryDerSerial(w: World, e: Entry)
    requires Inv(w) && e in Entries(w.journal)
    ensures e.iss.der.serial == EntrySerial(e) && EntrySerial(e) in w.h.commits && EntrySerial(e) in Known(w)
  {
    assert CommitOk(w.h, EntrySerial(e));
  }

  lemma BoundIssuance(w: World, k: nat, x: SharedIssuance)
    requires Inv(w) && k < |w.journal.shared| && x in w.journal.shared[k].issuances
    ensures x.iss.der.ips == [x.source] && AllInDomain(x.iss.der.dns, w.journal.shared[k].suffixes)
  {
    assert SharedSound(w.journal.shared[k], w.clock, w.text) && Bound(w.journal.shared[k], x, w.clock, w.text);
  }

  lemma HashesDiffer(w: World)
    requires Inv(w)
    ensures DistinctHashes(w.journal)
  {
  }

  lemma {:induction false} PublishKeepsDistinct(st: State)
    requires DistinctHashes(st)
    ensures DistinctHashes(Publish(st))
  {
    var p := Publish(st);
    forall c, s | c in p.challenges && s in p.shared
      ensures c.hash != s.hash
    {
      var i :| 0 <= i < |p.challenges| && p.challenges[i] == c;
      var k :| 0 <= k < |p.shared| && p.shared[k] == s;
      assert st.challenges[i] in st.challenges && st.shared[k] in st.shared;
    }
  }

  /** A definite reply for an unused challenge, in terms of that challenge. */
  lemma UnusedAnswer(
    st: State, serials: set<string>, q: Request, now: int, env: Env, reply: Reply, healthy: bool)
    requires DistinctHashes(st)
    requires reply.Success? || reply.Failure? ==> Answers(reply, Decide(Publish(st), serials, q, now, env), healthy)
    ensures forall c :: c in st.challenges && c.hash == q.challenge && c.ca == st.ca ==>
              c.issue.None? && (reply.Success? || reply.Failure?) ==>
                && (reply.Success? <==> Permits(c, q, now, env))
                && (reply.Success? ==> OwnSans(c, q, reply.der))
  {
    hide Decide, Permits;
    PublishKeepsDistinct(st);
    forall c | c in st.challenges && c.hash == q.challenge && c.ca == st.ca && c.issue.None?
      ensures reply.Success? || reply.Failure? ==>
                && (reply.Success? <==> Permits(c, q, now, env))
                && (reply.Success? ==> OwnSans(c, q, reply.der))
    {
      var k :| 0 <= k < |st.challenges| && st.challenges[k] == c;
      assert Publish(st).challenges[k] == c;
      UnusedDecision(Publish(st), c, serials, q, now, env);
      if Permits(c, q, now, env) {
        PermittedSans(c, q, now, env);
      }
    }
  }

  lemma PermittedSans(c: Challenge, q: Request, now: int, env: Env)
    requires Permits(c, q, now, env)
    ensures forall d :: d in q.dns ==> d in c.dns
    ensures forall ip :: ip in q.ips ==> ip in c.ips
  {
    AllowedIsSubset(q, c);
  }

  lemma SharedAnswer(st: State, q: Request, env: Env, reply: Reply)
    requires reply.Success? ==>
               forall p :: p in Publish(st).shared && p.hash == q.challenge && p.ca == Publish(st).ca ==>
                 SourceBound(p, q, env, reply.der)
    ensures forall s :: s in st.shared && s.hash == q.challenge && s.ca == st.ca ==>
              reply.Success? ==> SourceBound(s, q, env, reply.der)
  {
    forall s | s in st.shared && s.hash == q.challenge && s.ca == st.ca && reply.Success?
      ensures SourceBound(s, q, env, reply.der)
    {
      var k :| 0 <= k < |st.shared| && st.shared[k] == s;
      assert Publish(st).shared[k] in Publish(st).shared;
    }
  }

  lemma GrantedNotDeleted(w: World)
    requires Inv(w)
    ensures forall s :: s in Serials(w.index) ==> s !in w.h.deleted
  {
  }

  lemma UsePending(w: World, st: State, i: nat, iss: Issuance)
    requires Inv(w) && st == w.journal && i < |st.challenges| && st.challenges[i].issue.None? && Pending(st) == {}
    requires !iss.published
    ensures Pending(Use(st, i, iss)) == {iss.record.serial}
    ensures PendingCas(Use(st, i, iss)) <= {st.challenges[i].ca}
  {
    var next := Use(st, i, iss);
    var e := Entry(st.challenges[i].hash, iss);
    ChallengeReplaced(st.challenges, i, next.challenges[i]);
    SameHashSameChallenge(st.challenges, st.challenges[i]);
    forall x
      ensures x in DeviceEntries(next.challenges) <==> x in DeviceEntries(st.challenges) || x == e
    {
      assert next.challenges[i] in next.challenges;
    }
    PendingPlus(st, next, e);
    NoPendingCas(st);
  }

  lemma NoPendingCas(st: State)
    requires Pending(st) == {}
    ensures PendingCas(st) == {}
    ensures forall s, i :: s in st.shared && i in s.issuances ==> i.iss.published
  {
    assert forall e :: e in Entries(st) && !e.iss.published ==> EntrySerial(e) in Pending(st);
    forall c | c in st.challenges && c.issue.Some?
      ensures c.issue.value.published
    {
      assert Entry(c.hash, c.issue.value) in Entries(st);
    }
    forall s, i | s in st.shared && i in s.issuances
      ensures i.iss.published
    {
      assert Entry(s.hash, i.iss) in IssuanceEntries(s.hash, s.issuances);
      assert Entry(s.hash, i.iss) in Entries(st);
    }
  }

  lemma SharedHashesDiffer(w: World)
    requires Inv(w)
    ensures DistinctShared(w.journal.shared)
  {
  }

  lemma AddPending(w: World, st: State, k: nat, x: SharedIssuance)
    requires Inv(w) && st == w.journal && k < |st.shared| && Pending(st) == {} && !x.iss.published
    ensures Pending(Add(st, k, x)) == {x.iss.record.serial}
    ensures PendingCas(Add(st, k, x)) <= {st.shared[k].ca}
  {
    hide Inv, Entries, Pending;
    var next := Add(st, k, x);
    SharedHashesDiffer(w);
    AddEntries(st, k, x);
    PendingPlus(st, next, Entry(st.shared[k].hash, x.iss));
    NoPendingCas(st);
    forall ca | ca in PendingCas(next)
      ensures ca == st.shared[k].ca
    {
      if s, i :| s in next.shared && i in s.issuances && !i.iss.published && s.ca == ca {
        var m :| 0 <= m < |next.shared| && next.shared[m] == s;
        assert m != k ==> s in st.shared;
      }
    }
  }

  lemma FirstDevice(cs: seq<Challenge>, i: nat, hash: string, ca: string)
    requires i < |cs| && cs[i].hash == hash && cs[i].ca == ca
    requires forall j :: 0 <= j < i ==> cs[j].hash != hash || cs[j].ca != ca
    ensures FindDevice(cs, hash, ca) == Some(i)
  {
    if i > 0 {
      FirstDevice(cs[1..], i - 1, hash, ca);
    }
  }

  lemma FirstShared(ss: seq<Shared>, i: nat, hash: string, ca: string)
    requires i < |ss| && ss[i].hash == hash && ss[i].ca == ca
    requires forall j :: 0 <= j < i ==> ss[j].hash != hash || ss[j].ca != ca
    ensures FindShared(ss, hash, ca) == Some(i)
  {
    if i > 0 {
      FirstShared(ss[1..], i - 1, hash, ca);
    }
  }

  lemma NoDevice(cs: seq<Challenge>, hash: string, ca: string)
    requires forall j :: 0 <= j < |cs| ==> cs[j].hash != hash || cs[j].ca != ca
    ensures FindDevice(cs, hash, ca).None?
  {
  }

  lemma NoShared(ss: seq<Shared>, hash: string, ca: string)
    requires forall j :: 0 <= j < |ss| ==> ss[j].hash != hash || ss[j].ca != ca
    ensures FindShared(ss, hash, ca).None?
  {
  }

  predicate Unpublished(c: Challenge) {
    c.issue.Some? && !c.issue.value.published
  }

  lemma EntryIsKnown(w: World, e: Entry)
    requires Inv(w) && e in Entries(w.journal)
    ensures EntrySerial(e) in w.h.commits
  {
  }

  lemma EntryOfDevice(st: State, i: nat)
    requires i < |st.challenges| && st.challenges[i].issue.Some?
    ensures var c := st.challenges[i];
            && Entry(c.hash, c.issue.value) in Entries(st)
            && (!c.issue.value.published ==> c.issue.value.record.serial in Pending(st) && c.ca in PendingCas(st))
  {
    var c := st.challenges[i];
    assert Entry(c.hash, c.issue.value) in DeviceEntries(st.challenges);
    assert EntrySerial(Entry(c.hash, c.issue.value)) == c.issue.value.record.serial;
  }

  lemma EntryOfShared(st: State, k: nat, j: nat)
    requires k < |st.shared| && j < |st.shared[k].issuances|
    ensures var c, i := st.shared[k], st.shared[k].issuances[j];
            && Entry(c.hash, i.iss) in Entries(st)
            && (!i.iss.published ==> i.iss.record.serial in Pending(st) && c.ca in PendingCas(st))
  {
    var c, i := st.shared[k], st.shared[k].issuances[j];
    assert c in st.shared && Entry(c.hash, i.iss) in IssuanceEntries(c.hash, c.issuances);
    assert EntrySerial(Entry(c.hash, i.iss)) == i.iss.record.serial;
  }

  lemma AllPublished(st: State, there: set<string>, dirty: bool)
    requires forall e :: e in DeviceEntries(st.challenges) && !e.iss.published ==> dirty && EntrySerial(e) in there
    requires forall m :: 0 <= m < |st.shared| ==>
               forall e :: e in IssuanceEntries(st.shared[m].hash, st.shared[m].issuances) ==>
                 e.iss.published || (dirty && EntrySerial(e) in there)
    ensures Pending(st) <= there
    ensures !dirty ==> Pending(st) == {} && Publish(st) == st
  {
    forall e | e in Entries(st) && !e.iss.published
      ensures dirty && EntrySerial(e) in there
    {
      if e in SharedEntries(st.shared) {
        var s :| s in st.shared && e in IssuanceEntries(s.hash, s.issuances);
        var m :| 0 <= m < |st.shared| && st.shared[m] == s;
      }
    }
    if !dirty {
      assert Pending(st) == {};
      NothingPending(st);
    }
  }

  lemma PublishedPending(st: State)
    ensures Pending(Publish(st)) == {}
  {
    PublishEntries(st);
  }
}
