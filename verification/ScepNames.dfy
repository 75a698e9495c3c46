/**
  Names and addresses of shared-challenge requests: which DNS names a source address
  may have certified, and the identity string that the rate limit is keyed by.
  */
module ScepNames {
  import opened Strings
  import opened Wrappers

  const MAX_NAMES: int := 4

  // ----- Addresses -----

  /** An unmapped peer address without a zone. */
  datatype Addr = V4(bits4: nat) | V6(bits6: nat)

  datatype Prefix = Prefix(addr: Addr, length: nat)

  function Width(a: Addr): nat {
    if a.V4? then 32 else 128
  }

  function Value(a: Addr): nat {
    if a.V4? then a.bits4 else a.bits6
  }

  predicate ValidPrefix(p: Prefix) {
    p.length <= Width(p.addr)
  }

  /** n without its lowest k bits. */
  function Shifted(n: nat, k: nat): nat {
    if k == 0 then n else Shifted(n / 2, k - 1)
  }

  /** n with its lowest k bits cleared. */
  function Cleared(n: nat, k: nat): nat {
    if k == 0 then n else 2 * Cleared(n / 2, k - 1)
  }

  /** The address with every bit after the prefix cleared. */
  function Masked(p: Prefix): Prefix
    requires ValidPrefix(p)
  {
    var v := Cleared(Value(p.addr), Width(p.addr) - p.length);
    Prefix(if p.addr.V4? then V4(v) else V6(v), p.length)
  }

  predicate Contains(p: Prefix, a: Addr)
    requires ValidPrefix(p)
  {
    && p.addr.V4? == a.V4?
    && Shifted(Value(a), Width(p.addr) - p.length) == Shifted(Value(p.addr), Width(p.addr) - p.length)
  }

  predicate InRanges(ranges: seq<Prefix>, a: Addr) {
    exists i :: 0 <= i < |ranges| && ValidPrefix(ranges[i]) && Contains(ranges[i], a)
  }

  /** Masking a range on creation changes neither its members nor a range already masked. */
  lemma MaskingIsHarmless(p: Prefix, a: Addr)
    requires ValidPrefix(p)
    ensures ValidPrefix(Masked(p)) && Masked(Masked(p)) == Masked(p)
    ensures Contains(Masked(p), a) == Contains(p, a)
  {
    ClearedBits(Value(p.addr), Width(p.addr) - p.length);
  }

  lemma {:induction false} ClearedBits(n: nat, k: nat)
    ensures Cleared(Cleared(n, k), k) == Cleared(n, k) && Shifted(Cleared(n, k), k) == Shifted(n, k)
    decreases k
  {
    if k == 0 {
    } else {
      ClearedBits(n / 2, k - 1);
    }
  }

  function Pow2(k: nat): (r: nat)
    ensures r > 0
  {
    if k == 0 then 1 else 2 * Pow2(k - 1)
  }

  function Block(m: nat, k: nat): nat {
    m * Pow2(k)
  }

  /** a and the address of p stand in one aligned block of as many addresses as the length leaves free. */
  ghost predicate SameBlock(p: Prefix, a: Addr)
    requires ValidPrefix(p)
  {
    && (p.addr.V4? <==> a.V4?)
    && InOneBlock(Value(a), Value(p.addr), if p.addr.V4? then 32 - p.length else 128 - p.length)
  }

  ghost predicate InOneBlock(v: nat, w: nat, k: nat) {
    exists m: nat :: Block(m, k) <= v < Block(m, k) + Pow2(k) && Block(m, k) <= w < Block(m, k) + Pow2(k)
  }

  lemma {:induction false} ShiftedIsBlock(n: nat, k: nat)
    ensures Block(Shifted(n, k), k) <= n < Block(Shifted(n, k), k) + Pow2(k)
  {
    if k == 0 {
    } else {
      ShiftedIsBlock(n / 2, k - 1);
      var m := Shifted(n, k);
      assert Block(m, k) == 2 * Block(m, k - 1);
    }
  }

  lemma {:induction false} BlocksAscend(m: nat, m': nat, k: nat)
    requires m < m'
    ensures Block(m, k) + Pow2(k) <= Block(m', k)
  {
    assert Block(m', k) == Block(m' - 1, k) + Pow2(k);
    if m + 1 < m' {
      BlocksAscend(m, m' - 1, k);
    }
  }

  lemma BlocksAreDisjoint(m: nat, m': nat, k: nat, n: nat)
    requires Block(m, k) <= n < Block(m, k) + Pow2(k) && Block(m', k) <= n < Block(m', k) + Pow2(k)
    ensures m == m'
  {
    hide Block;
    if m < m' {
      BlocksAscend(m, m', k);
    } else if m' < m {
      BlocksAscend(m', m, k);
    }
  }

  lemma ContainsIsBlock(p: Prefix, a: Addr)
    requires ValidPrefix(p)
    ensures Contains(p, a) <==> SameBlock(p, a)
  {
    hide Block;
    var k := Width(p.addr) - p.length;
    var x, y := Shifted(Value(a), k), Shifted(Value(p.addr), k);
    ShiftedIsBlock(Value(a), k);
    ShiftedIsBlock(Value(p.addr), k);
    if SameBlock(p, a) {
      var m: nat :| Block(m, k) <= Value(a) < Block(m, k) + Pow2(k)
                    && Block(m, k) <= Value(p.addr) < Block(m, k) + Pow2(k);
      BlocksAreDisjoint(m, x, k, Value(a));
      BlocksAreDisjoint(m, y, k, Value(p.addr));
    }
  }

  /** Which addresses a list of ranges admits. */
  lemma RangesAreBlocks(ranges: seq<Prefix>, a: Addr)
    ensures InRanges(ranges, a) <==> exists p :: p in ranges && ValidPrefix(p) && SameBlock(p, a)
  {
    forall p | p in ranges && ValidPrefix(p)
      ensures Contains(p, a) <==> SameBlock(p, a)
    {
      ContainsIsBlock(p, a);
    }
  }

  // ----- DNS names -----

  predicate NameChar(c: char) {
    'a' <= c <= 'z' || 'A' <= c <= 'Z' || '0' <= c <= '9' || c == '-'
  }

  predicate Label(s: string) {
    && 0 < |s| <= 63 && s[0] != '-' && s[|s| - 1] != '-'
    && forall c :: c in s ==> NameChar(c)
  }

  /** Labels by ASCII code: letters, digits and inner hyphens. */
  lemma LabelCodes(s: string)
    ensures Label(s) <==>
              && 1 <= |s| <= 63 && s[0] as int != 45 && s[|s| - 1] as int != 45
              && forall i :: 0 <= i < |s| ==>
                   var k := s[i] as int; k == 45 || 48 <= k <= 57 || 65 <= k <= 90 || 97 <= k <= 122
  {
    if Label(s) {
      forall i | 0 <= i < |s|
        ensures NameChar(s[i])
      {
        assert s[i] in s;
      }
    }
  }

  predicate ScepDnsName(s: string) {
    0 < |s| <= 253 && forall l :: l in Split(s, '.') ==> Label(l)
  }

  predicate UnderSuffix(name: string, suffixes: seq<string>) {
    exists i :: 0 <= i < |suffixes| && (name == suffixes[i] || HasSuffix(name, "." + suffixes[i]))
  }

  /** The labels of some suffix are the last labels of name. */
  ghost predicate InDomain(name: string, suffixes: seq<string>) {
    exists s :: s in suffixes && PartsTail(name, s, '.')
  }

  ghost predicate AllInDomain(names: seq<string>, suffixes: seq<string>) {
    forall n :: n in names ==> InDomain(n, suffixes)
  }

  /** A suffix stands on a label boundary. */
  lemma SuffixesAreLabels(name: string, suffixes: seq<string>)
    ensures UnderSuffix(name, suffixes) <==> InDomain(name, suffixes)
  {
    hide HasSuffix;
    forall i | 0 <= i < |suffixes|
      ensures name == suffixes[i] || HasSuffix(name, "." + suffixes[i]) <==> PartsTail(name, suffixes[i], '.')
    {
      SuffixIsTail(name, suffixes[i], '.');
      assert "." + suffixes[i] == ['.'] + suffixes[i];
    }
  }

  /** A DNS name is not empty and contains neither of the identity string's separators. */
  lemma DnsNameIsPlain(s: string)
    requires ScepDnsName(s)
    ensures s != "" && ',' !in s && '|' !in s
  {
    if ',' in s {
      SplitChars(s, '.', ',');
    }
    if '|' in s {
      SplitChars(s, '.', '|');
    }
  }

  // ----- Names a request asks for -----

  ghost predicate NoRepeats(names: seq<string>) {
    forall i, j :: 0 <= i < j < |names| ==> names[i] != names[j]
  }

  function NameSet(names: seq<string>): set<string> {
    set n | n in names
  }

  predicate Dotted(s: string) {
    '.' in s && ScepDnsName(s)
  }

  const HOSTNAME: string := "hostname="

  function TrimHostname(s: string): string {
    if HOSTNAME <= s then s[|HOSTNAME|..] else s
  }

  /** The DNS names among a request's SANs, common name and unstructured names. */
  function Asked(dns: seq<string>, cn: string, unstructured: seq<string>, norm: string -> string): set<string> {
    SanNames(dns, norm) + (if Dotted(norm(cn)) then {norm(cn)} else {}) + HostNames(unstructured, norm)
  }

  function SanNames(dns: seq<string>, norm: string -> string): set<string> {
    set d | d in dns :: norm(d)
  }

  function HostNames(values: seq<string>, norm: string -> string): set<string> {
    set v | v in values && Dotted(norm(TrimHostname(norm(v)))) :: norm(TrimHostname(norm(v)))
  }

  lemma NamesAppend(front: seq<string>, v: string, norm: string -> string)
    ensures SanNames(front + [v], norm) == SanNames(front, norm) + {norm(v)}
    ensures var n := norm(TrimHostname(norm(v)));
            HostNames(front + [v], norm) == HostNames(front, norm) + (if Dotted(n) then {n} else {})
  {
  }

  /** A host name: two or more labels of letters, digits and inner hyphens, at most 253 characters. */
  ghost predicate HostName(n: string) {
    |n| <= 253 && |Split(n, '.')| >= 2 && forall l :: l in Split(n, '.') ==> Label(l)
  }

  lemma DottedIsHostName(n: string)
    ensures Dotted(n) <==> HostName(n)
  {
    if '.' in n {
      SplitsAtSeparator(n, '.');
    } else {
      SplitOfPlain(n, '.');
    }
    assert n == "" ==> Split(n, '.') == [""];
  }

  /** What a request asks for: every SAN, and the common name and the unstructured names that are host names. */
  lemma AskedNames(dns: seq<string>, cn: string, unstructured: seq<string>, norm: string -> string, n: string)
    ensures n in Asked(dns, cn, unstructured, norm) <==>
            || (exists d :: d in dns && norm(d) == n)
            || (HostName(n)
                && (norm(cn) == n
                    || exists v, bare :: v in unstructured && Bare(norm(v), bare) && norm(bare) == n))
  {
    hide HostName, Dotted;
    DottedIsHostName(n);
    forall v | v in unstructured
      ensures forall bare :: Bare(norm(v), bare) <==> bare == TrimHostname(norm(v))
    {
      forall bare
        ensures Bare(norm(v), bare) <==> bare == TrimHostname(norm(v))
      {
        BareIsTrimmed(norm(v), bare);
      }
    }
    if n in HostNames(unstructured, norm) {
      var v :| v in unstructured && Dotted(norm(TrimHostname(norm(v)))) && norm(TrimHostname(norm(v))) == n;
      assert Bare(norm(v), TrimHostname(norm(v)));
    }
  }

  /** value with a leading "hostname=" taken off once. */
  ghost predicate Bare(value: string, bare: string) {
    value == "hostname=" + bare || (value == bare && !("hostname=" <= value))
  }

  lemma BareIsTrimmed(value: string, bare: string)
    ensures Bare(value, bare) <==> bare == TrimHostname(value)
  {
    if HOSTNAME <= value {
      assert value == HOSTNAME + value[|HOSTNAME|..];
    }
    if value == "hostname=" + bare {
      assert value[|HOSTNAME|..] == bare;
    }
  }

  function AddOnce(names: seq<string>, n: string): (r: seq<string>)
    ensures NameSet(r) == NameSet(names) + {n}
    ensures NoRepeats(names) ==> NoRepeats(r)
    ensures names <= r
  {
    if n in names then names else names + [n]
  }

  /**
    sharedCandidates; norm trims, lowercases and drops a final dot.  Refused exactly for
    an invalid DNS SAN or more than four different names; otherwise each name asked for
    is listed once, the first SAN first.
    */
  method SharedCandidates(dns: seq<string>, cn: string, unstructured: seq<string>, norm: string -> string)
    returns (res: Option<seq<string>>)
    ensures res.Some? ==>
              && NoRepeats(res.value) && |res.value| <= MAX_NAMES
              && NameSet(res.value) == Asked(dns, cn, unstructured, norm)
              && (forall n :: n in res.value ==> ScepDnsName(n))
              && (dns != [] ==> res.value != [] && res.value[0] == norm(dns[0]))
    ensures res.None? <==>
              || (exists d :: d in dns && !ScepDnsName(norm(d)))
              || |Asked(dns, cn, unstructured, norm)| > MAX_NAMES
  {
    hide SanNames, HostNames;
    res := AddSans(dns, norm);
    if res.None? {
      return;
    }
    var out := res.value;
    if Dotted(norm(cn)) {
      out := AddOnce(out, norm(cn));
    }
    out := AddHostNames(out, unstructured, norm);
    NamesCounted(out);
    NamesAreValid(dns, cn, unstructured, norm);
    forall n | n in out
      ensures ScepDnsName(n)
    {
      assert n in NameSet(out);
    }
    if |out| > MAX_NAMES {
      return None;
    }
    return Some(out);
  }

  method AddSans(dns: seq<string>, norm: string -> string) returns (res: Option<seq<string>>)
    ensures res.None? <==> exists d :: d in dns && !ScepDnsName(norm(d))
    ensures res.Some? ==> NoRepeats(res.value) && NameSet(res.value) == SanNames(dns, norm)
    ensures res.Some? && dns != [] ==> res.value != [] && res.value[0] == norm(dns[0])
  {
    hide SanNames;
    var out: seq<string> := [];
    NoNames(norm);
    for i := 0 to |dns|
      invariant NoRepeats(out) && NameSet(out) == SanNames(dns[..i], norm)
      invariant forall d :: d in dns[..i] ==> ScepDnsName(norm(d))
      invariant if i == 0 then out == [] else out != [] && out[0] == norm(dns[0])
    {
      var n := norm(dns[i]);
      if !ScepDnsName(n) {
        assert dns[i] in dns;
        return None;
      }
      NamesAppend(dns[..i], dns[i], norm);
      assert dns[..i + 1] == dns[..i] + [dns[i]];
      out := AddOnce(out, n);
    }
    assert dns[..|dns|] == dns;
    return Some(out);
  }

  method AddHostNames(names: seq<string>, values: seq<string>, norm: string -> string) returns (out: seq<string>)
    requires NoRepeats(names)
    ensures NoRepeats(out) && names <= out && NameSet(out) == NameSet(names) + HostNames(values, norm)
  {
    hide HostNames;
    out := names;
    NoNames(norm);
    for i := 0 to |values|
      invariant NoRepeats(out) && names <= out
      invariant NameSet(out) == NameSet(names) + HostNames(values[..i], norm)
    {
      var n := norm(TrimHostname(norm(values[i])));
      NamesAppend(values[..i], values[i], norm);
      assert values[..i + 1] == values[..i] + [values[i]];
      if Dotted(n) {
        out := AddOnce(out, n);
      }
    }
    assert values[..|values|] == values;
  }

  lemma NoNames(norm: string -> string)
    ensures NameSet([]) == {} && SanNames([], norm) == {} && HostNames([], norm) == {}
  {
  }

  lemma NamesAreValid(dns: seq<string>, cn: string, unstructured: seq<string>, norm: string -> string)
    requires forall d :: d in dns ==> ScepDnsName(norm(d))
    ensures forall n :: n in Asked(dns, cn, unstructured, norm) ==> ScepDnsName(n)
  {
    hide ScepDnsName;
  }

  lemma {:induction false} NamesCounted(names: seq<string>)
    requires NoRepeats(names)
    ensures |NameSet(names)| == |names|
  {
    if names == [] {
    } else {
      var front, n := names[..|names| - 1], names[|names| - 1];
      NamesCounted(front);
      assert names == front + [n];
      assert n !in front;
      assert NameSet(names) == NameSet(front) + {n};
    }
  }

  // ----- Verified names -----

  /** An inventory device: its FQDN in lower case without a trailing dot, and its address if usable. */
  datatype Device = Device(fqdn: string, addr: Option<Addr>)

  predicate AtSource(devices: seq<Device>, name: string, src: Addr) {
    exists i :: 0 <= i < |devices| && devices[i].addr == Some(src) && devices[i].fqdn == name
  }

  predicate Resolves(lookup: string -> Option<set<Addr>>, name: string, src: Addr) {
    lookup(name).Some? && src in lookup(name).value
  }

  /** Why a name may stand in a certificate for src. */
  predicate Entitled(name: string, suffixes: seq<string>, src: Addr, devices: seq<Device>,
                     lookup: string -> Option<set<Addr>>)
  {
    UnderSuffix(name, suffixes) && (AtSource(devices, name, src) || Resolves(lookup, name, src))
  }

  /** Inventory names for src under a suffix, each once, in inventory order. */
  function Fallback(devices: seq<Device>, suffixes: seq<string>, src: Addr): (r: seq<string>)
    ensures NoRepeats(r)
    ensures forall n :: n in r ==> UnderSuffix(n, suffixes) && AtSource(devices, n, src)
  {
    if devices == [] then []
    else
      var front, d := devices[..|devices| - 1], devices[|devices| - 1];
      var names := Fallback(front, suffixes, src);
      assert forall n :: AtSource(front, n, src) ==> AtSource(devices, n, src) by {
        assert forall i :: 0 <= i < |front| ==> front[i] == devices[i];
      }
      if d.addr == Some(src) && d.fqdn != "" && UnderSuffix(d.fqdn, suffixes) && d.fqdn !in names then
        names + [d.fqdn]
      else names
  }

  /** sharedNames: the certificate's DNS names, or None for a refusal. */
  function SharedNames(cands: seq<string>, suffixes: seq<string>, src: Addr, devices: seq<Device>,
                       lookup: string -> Option<set<Addr>>): (r: Option<seq<string>>)
  {
    if suffixes == [] then Some([])
    else if exists i :: 0 <= i < |cands| && !Entitled(cands[i], suffixes, src, devices, lookup) then None
    else
      var names := if cands == [] then Fallback(devices, suffixes, src) else cands;
      if |names| > MAX_NAMES then None else Some(names)
  }

  /** The loop over the candidates, which stops at the first one without an entitlement. */
  method VerifyNames(cands: seq<string>, suffixes: seq<string>, src: Addr, devices: seq<Device>,
                     lookup: string -> Option<set<Addr>>) returns (res: Option<seq<string>>)
    ensures res == SharedNames(cands, suffixes, src, devices, lookup)
  {
    if |suffixes| == 0 {
      return Some([]);
    }
    var names: seq<string> := [];
    for i := 0 to |cands|
      invariant names == cands[..i]
      invariant forall k :: 0 <= k < i ==> Entitled(cands[k], suffixes, src, devices, lookup)
    {
      var n := cands[i];
      if !UnderSuffix(n, suffixes) {
        assert !Entitled(cands[i], suffixes, src, devices, lookup);
        return None;
      }
      if !AtSource(devices, n, src) {
        if lookup(n).None? || src !in lookup(n).value {
          assert !Entitled(cands[i], suffixes, src, devices, lookup);
          return None;
        }
      }
      names := names + [n];
    }
    if |cands| == 0 {
      names := Fallback(devices, suffixes, src);
    }
    assert cands[..|cands|] == cands;
    assert !exists i :: 0 <= i < |cands| && !Entitled(cands[i], suffixes, src, devices, lookup);
    if |names| > MAX_NAMES {
      return None;
    }
    return Some(names);
  }

  /** The labels of name end in those of a suffix, and an inventory device at src or the DNS gives it to src. */
  ghost predicate BelongsTo(name: string, suffixes: seq<string>, src: Addr, devices: seq<Device>,
                            lookup: string -> Option<set<Addr>>)
  {
    && InDomain(name, suffixes)
    && ((exists d :: d in devices && d.fqdn == name && d.addr == Some(src))
        || (lookup(name).Some? && src in lookup(name).value))
  }

  lemma EntitledBelongs(name: string, suffixes: seq<string>, src: Addr, devices: seq<Device>,
                        lookup: string -> Option<set<Addr>>)
    ensures Entitled(name, suffixes, src, devices, lookup) <==> BelongsTo(name, suffixes, src, devices, lookup)
  {
    SuffixesAreLabels(name, suffixes);
    if d :| d in devices && d.fqdn == name && d.addr == Some(src) {
      var i :| 0 <= i < |devices| && devices[i] == d;
      assert AtSource(devices, name, src);
    }
  }

  /** The names of the devices at src in a domain of the challenge. */
  ghost function Listed(devices: seq<Device>, suffixes: seq<string>, src: Addr): set<string> {
    set d | d in devices && d.addr == Some(src) && d.fqdn != "" && InDomain(d.fqdn, suffixes) :: d.fqdn
  }

  lemma {:induction false} FallbackIsListed(devices: seq<Device>, suffixes: seq<string>, src: Addr)
    ensures NameSet(Fallback(devices, suffixes, src)) == Listed(devices, suffixes, src)
  {
    hide InDomain, UnderSuffix;
    if devices == [] {
    } else {
      var front, d := devices[..|devices| - 1], devices[|devices| - 1];
      FallbackIsListed(front, suffixes, src);
      SuffixesAreLabels(d.fqdn, suffixes);
      var names := Fallback(front, suffixes, src);
      assert devices == front + [d];
      assert NameSet(names + [d.fqdn]) == NameSet(names) + {d.fqdn};
    }
  }

  /**
    What the name check answers: without suffixes no names; with candidates all of them
    or, if one does not belong to src or there are more than four, a refusal; without
    candidates the inventory's names for src, if they are at most four.
    */
  lemma SharedNamesExactly(cands: seq<string>, suffixes: seq<string>, src: Addr, devices: seq<Device>,
                           lookup: string -> Option<set<Addr>>)
    ensures var r := SharedNames(cands, suffixes, src, devices, lookup);
            if suffixes == [] then r == Some([])
            else if cands != [] then
              r == if (forall n :: n in cands ==> BelongsTo(n, suffixes, src, devices, lookup)) && |cands| <= 4
                   then Some(cands) else None
            else
              var listed := Listed(devices, suffixes, src);
              (r.Some? <==> |listed| <= 4) && (r.Some? ==> NameSet(r.value) == listed && NoRepeats(r.value))
  {
    hide BelongsTo, Entitled, Listed;
    forall n | n in cands
      ensures Entitled(n, suffixes, src, devices, lookup) <==> BelongsTo(n, suffixes, src, devices, lookup)
    {
      EntitledBelongs(n, suffixes, src, devices, lookup);
    }
    FallbackIsListed(devices, suffixes, src);
    NamesCounted(Fallback(devices, suffixes, src));
  }

  /** Every certified name belongs to the source, at most four of them, none twice, and none without suffixes. */
  lemma SharedNamesAreEntitled(cands: seq<string>, suffixes: seq<string>, src: Addr, devices: seq<Device>,
                               lookup: string -> Option<set<Addr>>)
    requires NoRepeats(cands) && SharedNames(cands, suffixes, src, devices, lookup).Some?
    ensures var names := SharedNames(cands, suffixes, src, devices, lookup).value;
            && (forall n :: n in names ==> BelongsTo(n, suffixes, src, devices, lookup))
            && |names| <= 4 && NoRepeats(names)
            && (suffixes == [] ==> names == [])
  {
    hide BelongsTo;
    var names := SharedNames(cands, suffixes, src, devices, lookup).value;
    forall n | n in names
      ensures BelongsTo(n, suffixes, src, devices, lookup)
    {
      EntitledBelongs(n, suffixes, src, devices, lookup);
    }
  }

  // ----- Sorting -----

  predicate LexLeq(a: string, b: string) {
    a == "" || (b != "" && (a[0] < b[0] || (a[0] == b[0] && LexLeq(a[1..], b[1..]))))
  }

  lemma {:induction false} LexTotal(a: string, b: string)
    ensures LexLeq(a, b) || LexLeq(b, a)
    ensures LexLeq(a, b) && LexLeq(b, a) ==> a == b
  {
    if a != "" && b != "" {
      LexTotal(a[1..], b[1..]);
      assert a == [a[0]] + a[1..] && b == [b[0]] + b[1..];
    }
  }

  lemma {:induction false} LexTransitive(a: string, b: string, c: string)
    requires LexLeq(a, b) && LexLeq(b, c)
    ensures LexLeq(a, c)
  {
    if a != "" && a[0] == b[0] && b[0] == c[0] {
      LexTransitive(a[1..], b[1..], c[1..]);
    }
  }

  function Insert(s: string, sorted: seq<string>): seq<string> {
    if sorted == [] || LexLeq(s, sorted[0]) then [s] + sorted else [sorted[0]] + Insert(s, sorted[1..])
  }

  /** slices.Sort on strings. */
  function Sort(names: seq<string>): seq<string> {
    if names == [] then [] else Insert(names[0], Sort(names[1..]))
  }

  ghost predicate Ascending(s: seq<string>) {
    forall i, j :: 0 <= i < j < |s| ==> LexLeq(s[i], s[j])
  }

  lemma {:induction false} InsertSorts(s: string, sorted: seq<string>)
    requires Ascending(sorted)
    ensures Ascending(Insert(s, sorted))
    ensures multiset(Insert(s, sorted)) == multiset(sorted) + multiset{s}
  {
    if sorted == [] {
    } else if LexLeq(s, sorted[0]) {
      forall j | 0 <= j < |sorted|
        ensures LexLeq(s, sorted[j])
      {
        if j > 0 { LexTransitive(s, sorted[0], sorted[j]); }
      }
    } else {
      var rest := sorted[1..];
      assert sorted == [sorted[0]] + rest;
      InsertSorts(s, rest);
      LexTotal(s, sorted[0]);
      forall x | x in Insert(s, rest)
        ensures LexLeq(sorted[0], x)
      {
        assert x in multiset(Insert(s, rest));
        if x != s {
          assert x in multiset(rest);
          var j :| 0 <= j < |rest| && rest[j] == x;
          assert sorted[j + 1] == x;
        }
      }
    }
  }

  lemma {:induction false} SortSorts(names: seq<string>)
    ensures Ascending(Sort(names)) && multiset(Sort(names)) == multiset(names)
  {
    if names == [] {
    } else {
      assert names == [names[0]] + names[1..];
      SortSorts(names[1..]);
      InsertSorts(names[0], Sort(names[1..]));
    }
  }

  lemma SameLeast(a: seq<string>, b: seq<string>)
    requires Ascending(a) && Ascending(b) && multiset(a) == multiset(b) && a != []
    ensures b != [] && a[0] == b[0]
  {
    assert |multiset(a)| == |multiset(b)|;
    assert a[0] in multiset(b) && b[0] in multiset(a);
    var i :| 0 <= i < |b| && b[i] == a[0];
    var j :| 0 <= j < |a| && a[j] == b[0];
    LexTotal(a[0], b[0]);
  }

  lemma {:induction false} AscendingIsCanonical(a: seq<string>, b: seq<string>)
    requires Ascending(a) && Ascending(b) && multiset(a) == multiset(b)
    ensures a == b
  {
    if a == [] {
      assert |multiset(b)| == 0;
    } else {
      SameLeast(a, b);
      assert a == [a[0]] + a[1..] && b == [b[0]] + b[1..];
      assert multiset(a[1..]) == multiset(a) - multiset{a[0]};
      assert multiset(b[1..]) == multiset(b) - multiset{b[0]};
      AscendingIsCanonical(a[1..], b[1..]);
    }
  }

  // ----- The identity string -----

  function Identity(text: Addr -> string, src: Addr, names: seq<string>): string {
    text(src) + "|" + Join(Sort(names), ',')
  }

  ghost predicate Plain(names: seq<string>) {
    forall n :: n in names ==> n != "" && ',' !in n
  }

  lemma BarSplits(x: string, y: string, u: string, v: string)
    requires '|' !in x && '|' !in y && x + "|" + u == y + "|" + v
    ensures x == y && u == v
  {
    var s := x + "|" + u;
    assert s == y + "|" + v;
    assert s[..|x|] == x && s[..|y|] == y && s[|x|] == '|' && s[|y|] == '|';
    if |x| < |y| {
      assert false;
    } else if |y| < |x| {
      assert false;
    }
    assert s[|x| + 1..] == u && s[|y| + 1..] == v;
  }

  lemma {:induction false} NoRepeatsCounts(names: seq<string>)
    requires NoRepeats(names)
    ensures forall n :: multiset(names)[n] == if n in names then 1 else 0
  {
    if names == [] {
    } else {
      assert names == [names[0]] + names[1..];
      NoRepeatsCounts(names[1..]);
    }
  }

  /**
    Identity strings are equal exactly when the source is and the sorted names break
    into the same pieces at their commas.
    */
  lemma IdentityIsPieces(text: Addr -> string, src1: Addr, names1: seq<string>, src2: Addr, names2: seq<string>)
    requires forall a, b :: text(a) == text(b) ==> a == b
    requires forall a :: '|' !in text(a)
    requires "" !in names1 && "" !in names2
    ensures Identity(text, src1, names1) == Identity(text, src2, names2)
       <==> src1 == src2 && Pieces(Sort(names1), ',') == Pieces(Sort(names2), ',')
  {
    hide Sort, Join, Pieces;
    var u, v := Join(Sort(names1), ','), Join(Sort(names2), ',');
    SortKeepsNames(names1);
    SortKeepsNames(names2);
    assert "" !in NameSet(Sort(names1)) && "" !in NameSet(Sort(names2));
    SameJoin(Sort(names1), Sort(names2), ',');
    if Identity(text, src1, names1) == Identity(text, src2, names2) {
      BarSplits(text(src1), text(src2), u, v);
    }
  }

  /** Without commas, as in every valid DNS name, that is: exactly when source and set of names are equal. */
  lemma IdentityIsFaithful(text: Addr -> string, src1: Addr, names1: seq<string>, src2: Addr, names2: seq<string>)
    requires forall a, b :: text(a) == text(b) ==> a == b
    requires forall a :: '|' !in text(a)
    requires NoRepeats(names1) && NoRepeats(names2) && Plain(names1) && Plain(names2)
    ensures Identity(text, src1, names1) == Identity(text, src2, names2)
       <==> src1 == src2 && NameSet(names1) == NameSet(names2)
  {
    hide Identity, NoRepeats, Sort, Pieces;
    IdentityIsPieces(text, src1, names1, src2, names2);
    SortKeepsNames(names1);
    SortKeepsNames(names2);
    SortKeepsPlain(names1);
    SortKeepsPlain(names2);
    PiecesOfPlain(Sort(names1), ',');
    PiecesOfPlain(Sort(names2), ',');
    if NameSet(names1) == NameSet(names2) {
      SameNamesSortAlike(names1, names2);
    }
  }

  lemma SortKeepsNames(names: seq<string>)
    ensures NameSet(Sort(names)) == NameSet(names)
  {
    SortSorts(names);
    forall n
      ensures n in Sort(names) <==> n in names
    {
      assert n in multiset(Sort(names)) <==> n in multiset(names);
    }
  }

  lemma SameNamesSortAlike(names1: seq<string>, names2: seq<string>)
    requires NoRepeats(names1) && NoRepeats(names2) && NameSet(names1) == NameSet(names2)
    ensures Sort(names1) == Sort(names2)
  {
    hide Sort;
    NoRepeatsCounts(names1);
    NoRepeatsCounts(names2);
    forall n
      ensures n in names1 <==> n in names2
    {
      assert n in NameSet(names1) <==> n in NameSet(names2);
    }
    assert multiset(names1) == multiset(names2);
    SortSorts(names1);
    SortSorts(names2);
    AscendingIsCanonical(Sort(names1), Sort(names2));
  }

  lemma SortKeepsPlain(names: seq<string>)
    requires Plain(names)
    ensures Plain(Sort(names))
  {
    SortSorts(names);
    forall n | n in Sort(names)
      ensures n in names
    {
      assert n in multiset(Sort(names));
    }
  }

  /** Names that a request asked for, and were verified, are plain, so the theorem above applies to them. */
  lemma CandidatesArePlain(cands: seq<string>, suffixes: seq<string>, src: Addr, devices: seq<Device>,
                           lookup: string -> Option<set<Addr>>)
    requires NoRepeats(cands) && cands != [] && (forall n :: n in cands ==> ScepDnsName(n))
    requires SharedNames(cands, suffixes, src, devices, lookup).Some?
    ensures var names := SharedNames(cands, suffixes, src, devices, lookup).value;
            Plain(names) && NoRepeats(names)
  {
    forall n | n in cands
      ensures n != "" && ',' !in n
    {
      DnsNameIsPlain(n);
    }
  }

  /** Verified names are never empty, so IdentityIsPieces applies to every outcome of SharedNames. */
  lemma SharedNamesAreNotEmpty(
    cands: seq<string>, suffixes: seq<string>, src: Addr, devices: seq<Device>, lookup: string -> Option<set<Addr>>)
    requires "" !in suffixes && SharedNames(cands, suffixes, src, devices, lookup).Some?
    ensures "" !in SharedNames(cands, suffixes, src, devices, lookup).value
  {
    var names := SharedNames(cands, suffixes, src, devices, lookup).value;
    assert suffixes != [] ==> !UnderSuffix("", suffixes);
    forall k | 0 <= k < |names|
      ensures names[k] != ""
    {
      if cands != [] {
        assert Entitled(cands[k], suffixes, src, devices, lookup);
      } else {
        assert names[k] in names;
      }
    }
  }

  /** A DNS that has src for every name. */
  function AllAt(src: Addr): string -> Option<set<Addr>> {
    n => Some({src})
  }

  /**
    Inventory names are not checked.  Under a valid suffix and in one inventory, a device
    whose FQDN holds a comma gives a request without names the same identity as a
    request for the two names on its sides gets.
    */
  lemma UncheckedNamesCollide(text: Addr -> string, src: Addr)
    ensures var suffixes, devices := ["x.y"], [Device("a.x.y,b.x.y", Some(src))];
            var one := SharedNames([], suffixes, src, devices, AllAt(src));
            var two := SharedNames(["a.x.y", "b.x.y"], suffixes, src, devices, AllAt(src));
            && Dotted("x.y") && one.Some? && two.Some?
            && Identity(text, src, one.value) == Identity(text, src, two.value)
            && NameSet(one.value) != NameSet(two.value)
  {
    var one, two := ["a.x.y,b.x.y"], ["a.x.y", "b.x.y"];
    WitnessNames(src);
    WitnessSorts();
    assert "a.x.y" in NameSet(two) && "a.x.y" !in NameSet(one);
  }

  lemma WitnessNames(src: Addr)
    ensures var suffixes, devices := ["x.y"], [Device("a.x.y,b.x.y", Some(src))];
            && Dotted("x.y")
            && SharedNames([], suffixes, src, devices, AllAt(src)) == Some(["a.x.y,b.x.y"])
            && SharedNames(["a.x.y", "b.x.y"], suffixes, src, devices, AllAt(src)) == Some(["a.x.y", "b.x.y"])
  {
    hide UnderSuffix, Dotted;
    WitnessSuffix();
    WitnessFallback(src);
    forall k | 0 <= k < 2
      ensures Entitled(["a.x.y", "b.x.y"][k], ["x.y"], src, [Device("a.x.y,b.x.y", Some(src))], AllAt(src))
    {
      assert UnderSuffix(["a.x.y", "b.x.y"][k], ["x.y"]);
    }
  }

  lemma WitnessSuffix()
    ensures Dotted("x.y")
    ensures UnderSuffix("a.x.y,b.x.y", ["x.y"]) && UnderSuffix("a.x.y", ["x.y"]) && UnderSuffix("b.x.y", ["x.y"])
  {
    SplitAt("x", "y", '.');
    SplitOfPlain("x", '.');
    SplitOfPlain("y", '.');
    assert "x.y" == "x" + "." + "y" && "x.y"[1] == '.';
    assert HasSuffix("a.x.y,b.x.y", ".x.y") && HasSuffix("a.x.y", ".x.y") && HasSuffix("b.x.y", ".x.y");
    assert "." + ["x.y"][0] == ".x.y";
  }

  lemma WitnessFallback(src: Addr)
    ensures Fallback([Device("a.x.y,b.x.y", Some(src))], ["x.y"], src) == ["a.x.y,b.x.y"]
  {
    hide UnderSuffix;
    WitnessSuffix();
    var devices := [Device("a.x.y,b.x.y", Some(src))];
    assert devices[..0] == [] && Fallback([], ["x.y"], src) == [];
    assert Fallback(devices, ["x.y"], src) == [] + ["a.x.y,b.x.y"];
  }

  lemma WitnessSorts()
    ensures Join(Sort(["a.x.y,b.x.y"]), ',') == Join(Sort(["a.x.y", "b.x.y"]), ',')
  {
    var one, two := ["a.x.y,b.x.y"], ["a.x.y", "b.x.y"];
    assert two[1..] == ["b.x.y"] && ["b.x.y"][1..] == [] && one[1..] == [];
    assert Sort([]) == [] && Sort(["b.x.y"]) == ["b.x.y"] && Sort(one) == one;
    assert LexLeq("a.x.y", "b.x.y");
    assert Sort(two) == Insert("a.x.y", ["b.x.y"]) == two;
    assert Join(two, ',') == "a.x.y" + "," + Join(["b.x.y"], ',');
    assert "a.x.y" + "," + "b.x.y" == "a.x.y,b.x.y";
  }
}
