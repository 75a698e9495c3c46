/** The journal of a staged tree, and what it still grants to a request. */
module StagedJournal {
  import opened ScepState
  import opened Wrappers

  import ScepNames

  /** An unused per-device challenge is revoked; nothing else is. */
  function DisarmChallenge(c: Challenge): Challenge {
    if c.issue.None? then c.(revoked := true) else c
  }

  function Disarm(st: State): State {
    st.(challenges := seq(|st.challenges|, i requires 0 <= i < |st.challenges| => DisarmChallenge(st.challenges[i])))
  }

  lemma {:induction false} FindDeviceAlike(a: seq<Challenge>, b: seq<Challenge>, hash: string, ca: string)
    requires |a| == |b| && forall k :: 0 <= k < |a| ==> a[k].hash == b[k].hash && a[k].ca == b[k].ca
    ensures FindDevice(a, hash, ca) == FindDevice(b, hash, ca)
  {
    if a == [] {
    } else {
      FindDeviceAlike(a[1..], b[1..], hash, ca);
    }
  }

  lemma {:induction false} FindSharedAlike(a: seq<Shared>, b: seq<Shared>, hash: string, ca: string)
    requires |a| == |b| && forall k :: 0 <= k < |a| ==> a[k].hash == b[k].hash && a[k].ca == b[k].ca
    ensures FindShared(a, hash, ca) == FindShared(b, hash, ca)
  {
    if a == [] {
    } else {
      FindSharedAlike(a[1..], b[1..], hash, ca);
    }
  }

  function MarkPublished(i: SharedIssuance): SharedIssuance {
    i.(iss := i.iss.(published := true))
  }

  lemma {:induction false} FirstRetryAlike(
    a: seq<SharedIssuance>, b: seq<SharedIssuance>, q: Request, src: ScepNames.Addr, now: int)
    requires |a| == |b| && forall k :: 0 <= k < |a| ==> b[k] == MarkPublished(a[k])
    ensures FirstRetry(b, q, src, now)
         == (match FirstRetry(a, q, src, now) case None => None case Some(i) => Some(MarkPublished(i)))
  {
    if a == [] {
    } else {
      FirstRetryAlike(a[1..], b[1..], q, src, now);
    }
  }

  lemma PublishingKeepsSharedDecision(s: Shared, serials: set<string>, q: Request, now: int, env: Env)
    ensures DecideShared(PublishShared(s), serials, q, now, env) == DecideShared(s, serials, q, now, env)
  {
    var a, b := s.issuances, PublishShared(s).issuances;
    if q.source.Some? {
      FirstRetryAlike(a, b, q, q.source.value, now);
    }
    forall identity: string
      ensures RateLimited(a, identity, now) <==> RateLimited(b, identity, now)
    {
      SameRateLimit(a, b, identity, now);
    }
  }

  lemma SameRateLimit(a: seq<SharedIssuance>, b: seq<SharedIssuance>, identity: string, now: int)
    requires |a| == |b| && forall k :: 0 <= k < |a| ==> b[k] == MarkPublished(a[k])
    ensures RateLimited(a, identity, now) <==> RateLimited(b, identity, now)
  {
    if RateLimited(a, identity, now) {
      var k :| 0 <= k < |a| && a[k].identity == identity && now < a[k].iss.used + RATE_WINDOW;
      assert b[k].identity == identity;
    }
  }

  /**
    A staged journal refuses every request on a per-device challenge that the archive
    holds unused, and answers every other request as the archived journal would.
    */
  lemma StagedJournalIsDisarmed(st: State, serials: set<string>, q: Request, now: int, env: Env)
    ensures var d := FindDevice(st.challenges, q.challenge, st.ca);
            Decide(Disarm(Publish(st)), serials, q, now, env)
            == if d.Some? && st.challenges[d.value].issue.None? then Refuse else Decide(st, serials, q, now, env)
  {
    var staged := Disarm(Publish(st));
    FindDeviceAlike(st.challenges, staged.challenges, q.challenge, st.ca);
    FindSharedAlike(st.shared, staged.shared, q.challenge, st.ca);
    var k := FindShared(st.shared, q.challenge, st.ca);
    if k.Some? {
      PublishingKeepsSharedDecision(st.shared[k.value], serials, q, now, env);
    }
  }

  lemma NoUnusedChallengeIsLive(st: State)
    ensures forall c :: c in Disarm(st).challenges && c.issue.None? ==> c.revoked
    ensures Disarm(st).shared == st.shared
  {
  }
}
