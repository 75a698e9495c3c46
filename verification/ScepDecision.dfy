/**
  What an enrollment request gets, said in terms of the challenge and the request alone:
  the exact conditions under which a certificate is issued, returned again or refused.
  */
module ScepDecision {
  import opened Wrappers
  import opened CertIndex
  import opened Strings
  import opened ScepNames
  import opened ScepState

  function Addrs(ips: seq<Addr>): set<Addr> {
    set ip | ip in ips
  }

  /** The expiry of an issued certificate. */
  function Until(days: int, now: int, cap: int): int {
    if now + days * 86400 <= cap then now + days * 86400 else cap
  }

  // ----- Per-device challenges -----

  /** An unused challenge authorizes a request: the names and addresses it asks for are among those of the challenge. */
  ghost predicate Permits(c: Challenge, q: Request, now: int, env: Env) {
    && !c.revoked && now <= c.expires && c.profileOk && env.policyOk && c.days > 0 && now < env.cap
    && !q.otherSans && NameSet(q.dns) <= NameSet(c.dns) && Addrs(q.ips) <= Addrs(c.ips)
  }

  /** An unused challenge issues exactly for the requests it permits, and always the challenge's own names. */
  lemma UnusedDecision(st: State, c: Challenge, serials: set<string>, q: Request, now: int, env: Env)
    requires DistinctHashes(st) && c in st.challenges && c.issue.None?
    requires c.hash == q.challenge && c.ca == st.ca
    ensures Decide(st, serials, q, now, env) ==
            if Permits(c, q, now, env)
            then Issue(Cert(env.serial, st.ca, q.cn, c.dns, c.ips, Until(c.days, now, env.cap)), "")
            else Refuse
  {
    FindDeviceIs(st.challenges, c);
    AllowedIsSubset(q, c);
  }

  lemma AllowedIsSubset(q: Request, c: Challenge)
    ensures AllowedIdentities(q, c)
       <==> !q.otherSans && NameSet(q.dns) <= NameSet(c.dns) && Addrs(q.ips) <= Addrs(c.ips)
  {
    if NameSet(q.dns) <= NameSet(c.dns) && Addrs(q.ips) <= Addrs(c.ips) {
      forall d | d in q.dns
        ensures d in c.dns
      {
        assert d in NameSet(q.dns);
      }
      forall ip | ip in q.ips
        ensures ip in c.ips
      {
        assert ip in Addrs(q.ips);
      }
    }
  }

  /** The transaction, the CSR and the signer of an issuance are those of the request. */
  predicate ThatRequest(i: Issuance, q: Request) {
    i.transaction == q.transaction && i.requestHash == q.requestHash && i.signerHash == q.signerHash
  }

  /** A used challenge returns its certificate to that very request for seven days, while the index has it. */
  lemma UsedDecision(st: State, c: Challenge, serials: set<string>, q: Request, now: int, env: Env)
    requires DistinctHashes(st) && c in st.challenges && c.issue.Some?
    requires c.hash == q.challenge && c.ca == st.ca
    ensures Decide(st, serials, q, now, env) ==
            var i := c.issue.value;
            if ThatRequest(i, q) && now <= i.used + 7 * 86400 && i.record.serial in serials then Return(i.der)
            else Refuse
  {
    FindDeviceIs(st.challenges, c);
  }

  /** The certificate is that of a journal entry which this very request was the cause of. */
  ghost predicate Receipt(st: State, q: Request, der: Cert) {
    exists e :: e in Entries(st) && e.hash == q.challenge && e.iss.der == der && ThatRequest(e.iss, q)
  }

  /** The certificate has the SANs of the challenge and no others; all that the request asked for are among them. */
  ghost predicate OwnSans(c: Challenge, q: Request, der: Cert) {
    && der.dns == c.dns && der.ips == c.ips
    && (forall d :: d in q.dns ==> d in der.dns) && (forall ip :: ip in q.ips ==> ip in der.ips)
  }

  // ----- Shared challenges -----

  /** The source stands in the block of one of the ranges, and the challenge is active. */
  ghost predicate Admits(s: Shared, q: Request, now: int) {
    && !s.revoked && now <= s.expires && q.source.Some?
    && exists p :: p in s.ranges && ValidPrefix(p) && SameBlock(p, q.source.value)
  }

  predicate Repeats(i: SharedIssuance, q: Request, now: int) {
    Some(i.source) == q.source && ThatRequest(i.iss, q) && now < i.iss.used + 7 * 86400
  }

  /** Ten minutes have passed since the last certificate of this identity. */
  ghost predicate Rested(s: Shared, identity: string, now: int) {
    forall i :: i in s.issuances && i.identity == identity ==> now >= i.iss.used + 600
  }

  /** The names the certificate would get; None is a refusal. */
  function NamesFor(s: Shared, q: Request, env: Env): Option<seq<string>>
    requires q.source.Some?
  {
    if q.names.Some? then SharedNames(q.names.value, s.suffixes, q.source.value, env.devices, env.lookup)
    else if s.suffixes == [] then Some([])
    else None
  }

  /**
    A shared challenge returns the certificate of a repeated request while the index has
    it; any other request it admits gets a certificate exactly when it asks for no other
    SANs, its names are verified, its identity has rested, and policy and expiry allow.
    */
  lemma SharedDecision(st: State, s: Shared, serials: set<string>, q: Request, now: int, env: Env)
    requires DistinctHashes(st) && s in st.shared && s.hash == q.challenge && s.ca == st.ca
    ensures var d := Decide(st, serials, q, now, env);
            && (d.Return? ==>
                  && Admits(s, q, now)
                  && exists i :: i in s.issuances && Repeats(i, q, now) && i.iss.record.serial in serials
                              && i.iss.der == d.der)
            && (d.Refuse? && Admits(s, q, now) && (exists i :: i in s.issuances && Repeats(i, q, now)) ==>
                  exists i :: i in s.issuances && Repeats(i, q, now) && i.iss.record.serial !in serials)
    ensures var d := Decide(st, serials, q, now, env);
            (d.Issue? <==>
               && Admits(s, q, now) && (forall i :: i in s.issuances ==> !Repeats(i, q, now)) && !q.otherSans
               && NamesFor(s, q, env).Some?
               && Rested(s, Identity(env.text, q.source.value, NamesFor(s, q, env).value), now)
               && env.policyOk && s.days > 0 && now < env.cap)
    ensures var d := Decide(st, serials, q, now, env);
            d.Issue? ==>
              var src, names := q.source.value, NamesFor(s, q, env).value;
              && d.identity == Identity(env.text, src, names)
              && d.cert == Cert(env.serial, st.ca, if names == [] then env.text(src) else names[0], names, [src],
                                Until(s.days, now, env.cap))
  {
    hide SharedNames, Identity, InRanges, SameBlock;
    FoundShared(st, s, serials, q, now, env);
    if q.source.Some? {
      RangesAreBlocks(s.ranges, q.source.value);
      RestedIsNotLimited(s, q, now, env);
      if i :| i in s.issuances && Repeats(i, q, now) {
        assert IsRetry(i, q, q.source.value, now);
      }
    }
  }

  lemma RestedIsNotLimited(s: Shared, q: Request, now: int, env: Env)
    requires q.source.Some?
    ensures RequestNames(q, s, q.source.value, env) == NamesFor(s, q, env)
    ensures forall identity :: RateLimited(s.issuances, identity, now) <==> !Rested(s, identity, now)
  {
    forall identity
      ensures RateLimited(s.issuances, identity, now) <==> !Rested(s, identity, now)
    {
      if i :| i in s.issuances && i.identity == identity && now < i.iss.used + 600 {
        var k :| 0 <= k < |s.issuances| && s.issuances[k] == i;
      }
    }
  }

  lemma FoundShared(st: State, s: Shared, serials: set<string>, q: Request, now: int, env: Env)
    requires DistinctHashes(st) && s in st.shared && s.hash == q.challenge && s.ca == st.ca
    ensures Decide(st, serials, q, now, env) == DecideShared(s, serials, q, now, env)
  {
    FindSharedIs(st.shared, s);
  }

  /**
    What every certificate handed out for a shared challenge keeps to: the source, inside a
    range, is its only IP SAN, and each DNS SAN ends in the labels of a suffix; one issued
    just now has only names that belong to the source.
    */
  ghost predicate SourceBound(s: Shared, q: Request, env: Env, der: Cert) {
    && q.source.Some? && der.ips == [q.source.value]
    && (exists p :: p in s.ranges && ValidPrefix(p) && SameBlock(p, q.source.value))
    && AllInDomain(der.dns, s.suffixes)
    && (der.serial == env.serial ==>
          forall n :: n in der.dns ==> BelongsTo(n, s.suffixes, q.source.value, env.devices, env.lookup))
  }

  /** A hash that no challenge of the selected CA has is refused. */
  lemma UnknownDecision(st: State, serials: set<string>, q: Request, now: int, env: Env)
    requires forall c :: c in st.challenges ==> c.hash != q.challenge || c.ca != st.ca
    requires forall s :: s in st.shared ==> s.hash != q.challenge || s.ca != st.ca
    ensures Decide(st, serials, q, now, env) == Refuse
  {
  }
}
