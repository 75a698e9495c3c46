/**
  The edits that the SCEP operations make to the journal, and why each one either
  continues the journal or commits exactly one new issuance.
  */
module ScepSteps {
  import opened Wrappers
  import opened CertIndex
  import opened ScepNames
  import opened ScepState
  import opened ScepInvariant

  // ----- Edits of per-device challenges -----

  function WithChallenge(st: State, i: nat, c: Challenge): State
    requires i < |st.challenges|
  {
    st.(challenges := st.challenges[i := c])
  }

  function WithoutChallenge(st: State, i: nat): State
    requires i < |st.challenges|
  {
    st.(challenges := st.challenges[..i] + st.challenges[i + 1..])
  }

  /** Membership after replacing one element of a list without repeated hashes. */
  lemma ChallengeReplaced(cs: seq<Challenge>, i: nat, c: Challenge)
    requires i < |cs| && DistinctDevices(cs) && c.hash == cs[i].hash
    ensures DistinctDevices(cs[i := c])
    ensures forall x :: x in cs[i := c] <==> x == c || (x in cs && x.hash != c.hash)
  {
    forall x
      ensures x in cs[i := c] <==> x == c || (x in cs && x.hash != c.hash)
    {
      assert cs[i := c][i] == c;
      if x in cs && x.hash != c.hash {
        var k :| 0 <= k < |cs| && cs[k] == x;
        assert cs[i := c][k] == x;
      }
    }
  }

  lemma ChallengeRemoved(cs: seq<Challenge>, i: nat)
    requires i < |cs| && DistinctDevices(cs)
    ensures DistinctDevices(cs[..i] + cs[i + 1..])
    ensures forall x :: x in cs[..i] + cs[i + 1..] <==> x in cs && x.hash != cs[i].hash
  {
    var rest := cs[..i] + cs[i + 1..];
    assert forall k :: 0 <= k < |rest| ==> rest[k] == cs[if k < i then k else k + 1];
    forall x | x in cs && x.hash != cs[i].hash
      ensures x in rest
    {
      var k :| 0 <= k < |cs| && cs[k] == x;
      assert rest[if k < i then k else k - 1] == x;
    }
  }

  lemma RevokeDeviceContinues(w: World, i: nat)
    requires Inv(w) && i < |w.journal.challenges| && w.journal.challenges[i].issue.None?
    ensures Continues(w, WithChallenge(w.journal, i, w.journal.challenges[i].(revoked := true)))
  {
    var c := w.journal.challenges[i];
    var next := WithChallenge(w.journal, i, c.(revoked := true));
    ChallengeReplaced(w.journal.challenges, i, c.(revoked := true));
    forall e
      ensures e in DeviceEntries(next.challenges) <==> e in DeviceEntries(w.journal.challenges)
    {
      SameHashSameChallenge(w.journal.challenges, c);
    }
  }

  lemma SameHashSameChallenge(cs: seq<Challenge>, c: Challenge)
    requires DistinctDevices(cs) && c in cs
    ensures forall x :: x in cs && x.hash == c.hash ==> x == c
  {
  }

  lemma DeleteDeviceContinues(w: World, i: nat)
    requires Inv(w) && i < |w.journal.challenges| && w.journal.challenges[i].issue.None?
    ensures Continues(w, WithoutChallenge(w.journal, i))
  {
    var c := w.journal.challenges[i];
    ChallengeRemoved(w.journal.challenges, i);
    forall e
      ensures e in DeviceEntries(WithoutChallenge(w.journal, i).challenges)
         <==> e in DeviceEntries(w.journal.challenges)
    {
      SameHashSameChallenge(w.journal.challenges, c);
    }
  }

  /** Using challenge i for iss. */
  function Use(st: State, i: nat, iss: Issuance): State
    requires i < |st.challenges|
  {
    WithChallenge(st, i, st.challenges[i].(issue := Some(iss)))
  }

  lemma UseCommits(w: World, i: nat, iss: Issuance)
    requires Inv(w) && i < |w.journal.challenges| && w.journal.challenges[i].issue.None?
    requires !iss.published && iss.record.serial !in Known(w) && iss.der.serial == iss.record.serial
    requires Describes(iss.record, iss.der, iss.used)
    ensures var e := Entry(w.journal.challenges[i].hash, iss);
            && e in Entries(Use(w.journal, i, iss))
            && Inv(w.(journal := Use(w.journal, i, iss), h := Committed(w.h, e)))
  {
    var c := w.journal.challenges[i];
    var e := Entry(c.hash, iss);
    var next := Use(w.journal, i, iss);
    ChallengeReplaced(w.journal.challenges, i, next.challenges[i]);
    SameHashSameChallenge(w.journal.challenges, c);
    forall x
      ensures x in DeviceEntries(next.challenges) <==> x in DeviceEntries(w.journal.challenges) || x == e
    {
      assert next.challenges[i] in next.challenges;
    }
    UseIsPaced(w, e);
    CommitIssuance(w, next, e);
  }

  // ----- Edits of shared challenges -----

  function WithShared(st: State, k: nat, s: Shared): State
    requires k < |st.shared|
  {
    st.(shared := st.shared[k := s])
  }

  function WithoutShared(st: State, k: nat): State
    requires k < |st.shared|
  {
    st.(shared := st.shared[..k] + st.shared[k + 1..])
  }

  lemma SharedReplaced(ss: seq<Shared>, k: nat, s: Shared)
    requires k < |ss| && DistinctShared(ss) && s.hash == ss[k].hash
    ensures DistinctShared(ss[k := s])
    ensures forall x :: x in ss[k := s] <==> x == s || (x in ss && x.hash != s.hash)
  {
    forall x
      ensures x in ss[k := s] <==> x == s || (x in ss && x.hash != s.hash)
    {
      assert ss[k := s][k] == s;
      if x in ss && x.hash != s.hash {
        var j :| 0 <= j < |ss| && ss[j] == x;
        assert ss[k := s][j] == x;
      }
    }
  }

  lemma SharedRemoved(ss: seq<Shared>, k: nat)
    requires k < |ss| && DistinctShared(ss)
    ensures DistinctShared(ss[..k] + ss[k + 1..])
    ensures forall x :: x in ss[..k] + ss[k + 1..] <==> x in ss && x.hash != ss[k].hash
  {
    var rest := ss[..k] + ss[k + 1..];
    assert forall j :: 0 <= j < |rest| ==> rest[j] == ss[if j < k then j else j + 1];
    forall x | x in ss && x.hash != ss[k].hash
      ensures x in rest
    {
      var j :| 0 <= j < |ss| && ss[j] == x;
      assert rest[if j < k then j else j - 1] == x;
    }
  }

  lemma SameHashSameShared(ss: seq<Shared>, s: Shared)
    requires DistinctShared(ss) && s in ss
    ensures forall x :: x in ss && x.hash == s.hash ==> x == s
  {
  }

  /** Entries after replacing shared challenge k by s with more, the same or fewer issuances. */
  lemma SharedEntriesReplaced(ss: seq<Shared>, k: nat, s: Shared)
    requires k < |ss| && DistinctShared(ss) && s.hash == ss[k].hash
    ensures SharedEntries(ss[k := s]) + IssuanceEntries(s.hash, ss[k].issuances)
         == SharedEntries(ss) + IssuanceEntries(s.hash, s.issuances)
  {
    SharedReplaced(ss, k, s);
    SameHashSameShared(ss, ss[k]);
    var left := SharedEntries(ss[k := s]) + IssuanceEntries(s.hash, ss[k].issuances);
    var right := SharedEntries(ss) + IssuanceEntries(s.hash, s.issuances);
    forall e | e in left
      ensures e in right
    {
      if e in SharedEntries(ss[k := s]) {
        var x :| x in ss[k := s] && e in IssuanceEntries(x.hash, x.issuances);
      } else {
        assert ss[k] in ss;
      }
    }
    forall e | e in right
      ensures e in left
    {
      assert s in ss[k := s];
      if e in SharedEntries(ss) {
        var x :| x in ss && e in IssuanceEntries(x.hash, x.issuances);
        if x.hash != s.hash {
          assert x in ss[k := s];
        }
      }
    }
  }

  lemma RevokeSharedContinues(w: World, k: nat)
    requires Inv(w) && k < |w.journal.shared|
    ensures Continues(w, WithShared(w.journal, k, w.journal.shared[k].(revoked := true)))
  {
    var s := w.journal.shared[k];
    var s' := s.(revoked := true);
    SharedReplaced(w.journal.shared, k, s');
    SharedEntriesReplaced(w.journal.shared, k, s');
    EntriesIncluded(w.journal.shared, s);
    EntriesIncluded(w.journal.shared[k := s'], s');
    assert SharedSound(s, w.clock, w.text);
    SameSoundness(s, s', w.clock, w.text);
  }

  lemma EntriesIncluded(ss: seq<Shared>, s: Shared)
    requires s in ss
    ensures IssuanceEntries(s.hash, s.issuances) <= SharedEntries(ss)
  {
  }

  lemma SameSoundness(s: Shared, s': Shared, clock: int, text: Addr -> string)
    requires SharedSound(s, clock, text)
    requires s'.issuances == s.issuances && s'.ranges == s.ranges && s'.suffixes == s.suffixes
    ensures SharedSound(s', clock, text)
  {
    forall i | i in s'.issuances
      ensures Bound(s', i, clock, text)
    {
      assert Bound(s, i, clock, text);
    }
  }

  lemma DeleteSharedContinues(w: World, k: nat)
    requires Inv(w) && k < |w.journal.shared|
    requires forall i :: i in w.journal.shared[k].issuances ==> i.iss.published
    ensures Continues(w, WithoutShared(w.journal, k))
  {
    var s := w.journal.shared[k];
    var next := WithoutShared(w.journal, k);
    SharedRemoved(w.journal.shared, k);
    SameHashSameShared(w.journal.shared, s);
    forall e | e in SharedEntries(w.journal.shared) && !e.iss.published
      ensures e in SharedEntries(next.shared)
    {
      var x :| x in w.journal.shared && e in IssuanceEntries(x.hash, x.issuances);
      assert x != s;
    }
  }

  /** Adding issuance x to shared challenge k. */
  function Add(st: State, k: nat, x: SharedIssuance): State
    requires k < |st.shared|
  {
    WithShared(st, k, st.shared[k].(issuances := st.shared[k].issuances + [x]))
  }

  lemma AddEntries(st: State, k: nat, x: SharedIssuance)
    requires k < |st.shared| && DistinctShared(st.shared)
    ensures Entries(Add(st, k, x)) == Entries(st) + {Entry(st.shared[k].hash, x.iss)}
  {
    var s := st.shared[k];
    var s' := s.(issuances := s.issuances + [x]);
    SharedEntriesReplaced(st.shared, k, s');
    assert st.shared[k := s'][k] == s';
    EntriesIncluded(st.shared, s);
    EntriesIncluded(st.shared[k := s'], s');
    assert IssuanceEntries(s.hash, s.issuances + [x]) == IssuanceEntries(s.hash, s.issuances) + {Entry(s.hash, x.iss)};
  }

  lemma AddKeepsSound(s: Shared, x: SharedIssuance, clock: int, text: Addr -> string)
    requires SharedSound(s, clock, text) && Bound(s, x, clock, text)
    requires forall i :: i in s.issuances ==> Spaced(i, x)
    ensures SharedSound(s.(issuances := s.issuances + [x]), clock, text)
  {
    var s' := s.(issuances := s.issuances + [x]);
    forall i | i in s'.issuances
      ensures Bound(s', i, clock, text)
    {
      assert i == x || Bound(s, i, clock, text);
    }
    assert AllSpaced(s'.issuances) by {
      hide Spaced;
      forall i, j | 0 <= i < j < |s'.issuances|
        ensures Spaced(s'.issuances[i], s'.issuances[j])
      {
        if j < |s.issuances| {
          assert Spaced(s.issuances[i], s.issuances[j]);
        }
      }
    }
  }

  /** A new issuance is paced by what the journal remembers, and is remembered itself. */
  lemma AddIsPaced(w: World, k: nat, x: SharedIssuance)
    requires Inv(w) && k < |w.journal.shared| && x.iss.record.serial !in Known(w)
    requires Bound(w.journal.shared[k], x, w.clock, w.text)
    requires forall i :: i in w.journal.shared[k].issuances ==> Spaced(i, x)
    ensures var commits := Committed(w.h, Entry(w.journal.shared[k].hash, x.iss)).commits;
            Paced(commits, w.text) && Remembers(Add(w.journal, k, x).shared, commits, w.text)
  {
    var s := w.journal.shared[k];
    var e := Entry(s.hash, x.iss);
    var commits := Committed(w.h, e).commits;
    assert CertIdentity(x.iss.der, w.text) == x.identity;
    forall c | c in w.h.commits
      ensures PacedPair(w.h.commits[c], CommitOf(e), w.text) && PacedPair(CommitOf(e), w.h.commits[c], w.text)
    {
      if w.h.commits[c].hash == s.hash {
        assert s in w.journal.shared && Remembered(s.issuances, w.h.commits[c], w.text);
      }
    }
    forall a, b | a in commits && b in commits && a != b
      ensures PacedPair(commits[a], commits[b], w.text)
    {
      if a in w.h.commits && b in w.h.commits {
        assert PacedPair(w.h.commits[a], w.h.commits[b], w.text);
      }
    }
    SharedReplaced(w.journal.shared, k, s.(issuances := s.issuances + [x]));
    forall y, c | y in Add(w.journal, k, x).shared && c in commits && commits[c].hash == y.hash
      ensures Remembered(y.issuances, commits[c], w.text)
    {
      if y.hash != s.hash {
        assert Remembered(y.issuances, commits[c], w.text);
      } else if c == EntrySerial(e) {
        assert x in y.issuances;
      } else {
        var earlier := commits[c];
        assert Remembered(s.issuances, earlier, w.text);
        var i :| i in s.issuances && i.identity == CertIdentity(earlier.der, w.text) && earlier.used <= i.iss.used;
        assert i in y.issuances;
      }
    }
  }

  /** A per-device issuance is the first of its challenge. */
  lemma UseIsPaced(w: World, e: Entry)
    requires Inv(w) && EntrySerial(e) !in w.h.commits && e.hash in w.h.hashes && w.h.hashes[e.hash]
    requires forall s :: s in w.h.commits ==> w.h.commits[s].hash != e.hash
    ensures Paced(Committed(w.h, e).commits, w.text)
    ensures Remembers(w.journal.shared, Committed(w.h, e).commits, w.text)
  {
    var commits := Committed(w.h, e).commits;
    forall a, b | a in commits && b in commits && a != b
      ensures PacedPair(commits[a], commits[b], w.text)
    {
      if a in w.h.commits && b in w.h.commits {
        assert PacedPair(w.h.commits[a], w.h.commits[b], w.text);
      }
    }
    forall x, c | x in w.journal.shared && c in commits && commits[c].hash == x.hash
      ensures Remembered(x.issuances, commits[c], w.text)
    {
      assert c in w.h.commits;
    }
  }

  lemma AddCommits(w: World, k: nat, x: SharedIssuance)
    requires Inv(w) && k < |w.journal.shared|
    requires !x.iss.published && x.iss.record.serial !in Known(w) && x.iss.der.serial == x.iss.record.serial
    requires Bound(w.journal.shared[k], x, w.clock, w.text)
    requires forall i :: i in w.journal.shared[k].issuances ==> Spaced(i, x)
    requires Describes(x.iss.record, x.iss.der, x.iss.used)
    ensures var e := Entry(w.journal.shared[k].hash, x.iss);
            && e in Entries(Add(w.journal, k, x))
            && Inv(w.(journal := Add(w.journal, k, x), h := Committed(w.h, e)))
  {
    hide AllSpaced, Spaced, Bound, Known;
    var s := w.journal.shared[k];
    var e := Entry(s.hash, x.iss);
    var next := Add(w.journal, k, x);
    assert SharedSound(s, w.clock, w.text);
    AddEntries(w.journal, k, x);
    AddKeepsSound(s, x, w.clock, w.text);
    SharedReplaced(w.journal.shared, k, next.shared[k]);
    AddKeepsRest(w, k, x);
    AddIsPaced(w, k, x);
    CommitIssuance(w, next, e);
  }

  lemma AddKeepsRest(w: World, k: nat, x: SharedIssuance)
    requires Inv(w) && k < |w.journal.shared|
    requires SharedSound(w.journal.shared[k].(issuances := w.journal.shared[k].issuances + [x]), w.clock, w.text)
    ensures HashesOk(Add(w.journal, k, x), w.h) && SharedOk(Add(w.journal, k, x), w.clock, w.text)
    ensures forall c :: c in w.journal.challenges ==> c.hash != w.journal.shared[k].hash
    ensures w.journal.shared[k].hash in w.h.hashes && !w.h.hashes[w.journal.shared[k].hash]
  {
    hide SharedSound;
    var s := w.journal.shared[k];
    SharedReplaced(w.journal.shared, k, s.(issuances := s.issuances + [x]));
    assert s in w.journal.shared;
  }

  /** What DecideShared has checked before it issues is what the new issuance needs. */
  lemma IssueIsSpaced(s: Shared, serials: set<string>, q: Request, now: int, env: Env, x: SharedIssuance)
    requires var d := DecideShared(s, serials, q, now, env);
             d.Issue? && q.source.Some? && x.source == q.source.value && x.identity == d.identity && x.iss.der == d.cert
    requires x.iss.used == now && SameRequest(x.iss, q) && DistinctNames(q)
    ensures forall i :: i in s.issuances ==> Spaced(i, x)
    ensures Bound(s, x, now, env.text)
  {
    forall i | i in s.issuances
      ensures Spaced(i, x)
    {
      assert !IsRetry(i, q, x.source, now);
      var k :| 0 <= k < |s.issuances| && s.issuances[k] == i;
    }
    IssuedNamesAreInDomain(s, serials, q, now, env);
  }

  lemma IssuedNamesAreInDomain(s: Shared, serials: set<string>, q: Request, now: int, env: Env)
    requires DecideShared(s, serials, q, now, env).Issue? && q.source.Some? && DistinctNames(q)
    ensures var d := DecideShared(s, serials, q, now, env);
            AllInDomain(d.cert.dns, s.suffixes)
    ensures var d := DecideShared(s, serials, q, now, env);
            forall n :: n in d.cert.dns ==> BelongsTo(n, s.suffixes, q.source.value, env.devices, env.lookup)
  {
    hide SharedNames, InDomain;
    if s.suffixes != [] {
      SharedNamesAreEntitled(q.names.value, s.suffixes, q.source.value, env.devices, env.lookup);
    }
  }

  // ----- New challenges -----

  lemma PruneContinues(w: World, now: int)
    requires Inv(w)
    ensures Continues(w, Prune(w.journal, now))
  {
    var p := Prune(w.journal, now);
    PruneEntries(w.journal, now);
    PruneKeepsDistinct(w.journal, now);
    PruneKeepsSharedOk(w.journal, w.clock, w.text, now);
    PruneRemembers(w.journal.shared, w.h.commits, w.text, now);
    forall c | c in p.challenges
      ensures c in w.journal.challenges
    {
      PruneChallengesMembers(w.journal.challenges, now, c);
    }
    forall s | s in p.shared
      ensures exists o :: o in w.journal.shared && o.hash == s.hash
    {
      PruneSharedMembers(w.journal.shared, now, s);
    }
  }

  lemma NewDeviceContinues(w: World, next: State, c: Challenge)
    requires Inv(w) && Continues(w, next) && c.issue.None?
    requires c.hash in w.h.hashes && w.h.hashes[c.hash]
    requires forall s :: s in w.h.commits ==> w.h.commits[s].hash != c.hash
    requires forall x :: x in next.challenges ==> x.hash != c.hash
    ensures Continues(w, next.(challenges := next.challenges + [c]))
  {
    var more := next.(challenges := next.challenges + [c]);
    assert DeviceEntries(more.challenges) == DeviceEntries(next.challenges);
    forall x, s | x in more.challenges && s in more.shared
      ensures x.hash != s.hash
    {
    }
  }

  lemma NewSharedContinues(w: World, next: State, s: Shared)
    requires Inv(w) && Continues(w, next) && s.issuances == []
    requires s.hash in w.h.hashes && !w.h.hashes[s.hash]
    requires forall x :: x in w.h.commits ==> w.h.commits[x].hash != s.hash
    requires forall x :: x in next.shared ==> x.hash != s.hash
    ensures Continues(w, next.(shared := next.shared + [s]))
  {
    var more := next.(shared := next.shared + [s]);
    assert SharedEntries(more.shared) == SharedEntries(next.shared) by {
      assert IssuanceEntries(s.hash, s.issuances) == {};
      forall e | e in SharedEntries(next.shared)
        ensures e in SharedEntries(more.shared)
      {
        var x :| x in next.shared && e in IssuanceEntries(x.hash, x.issuances);
        assert x in more.shared;
      }
    }
    assert SharedSound(s, w.clock, w.text);
  }
}
