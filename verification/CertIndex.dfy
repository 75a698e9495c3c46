/**
  The certificate index: records, the issuer graph they form, the walks up that
  graph, and the breadth-first collection of everything below one CA.
  */
module CertIndex {
  import opened Wrappers

  const CA_ROOT: string := "root"
  const CA_INTERMEDIATE: string := "intermediate" // id of the one intermediate of old stores

  datatype Kind = RootCa | Intermediate | Issued | Csr

  /** Times are seconds. */
  datatype Record = Record(
    serial: string,
    kind: Kind,
    issuerId: string,
    caId: string,
    allowSubCa: bool,
    notBefore: int,
    notAfter: int,
    hasKey: bool,
    keyEnc: bool,
    provenance: string)
  {
    predicate IsLeaf() {
      kind.Issued? || kind.Csr?
    }

    /** The name of the directory of a CA. */
    function CaId(): string {
      if kind.RootCa? then CA_ROOT else if caId != "" then caId else CA_INTERMEDIATE
    }
  }

  predicate ValidSerial(s: string) {
    s != "" && forall c | c in s :: '0' <= c <= '9' || 'a' <= c <= 'f'
  }

  const HEX_DIGITS: string := "0123456789abcdef"

  /** serialString: lower-case hexadecimal without leading zeros. */
  function Hex(n: nat): string {
    if n < 16 then [HEX_DIGITS[n]] else Hex(n / 16) + [HEX_DIGITS[n % 16]]
  }

  lemma HexDigitsAre()
    ensures forall i :: 0 <= i < 10 ==> HEX_DIGITS[i] as int == '0' as int + i
    ensures forall i :: 10 <= i < 16 ==> HEX_DIGITS[i] as int == 'a' as int + i - 10
  {
  }

  /** Every number gives a valid serial, and different numbers give different ones. */
  lemma {:induction false} SerialsAreFaithful(m: nat, n: nat)
    ensures ValidSerial(Hex(m)) && (Hex(m) == Hex(n) ==> m == n)
    decreases m
  {
    HexDigitsAre();
    if m < 16 {
      assert |Hex(n)| == 1 ==> n < 16 by { HexLonger(n); }
    } else {
      SerialsAreFaithful(m / 16, n / 16);
      var front := Hex(m / 16);
      assert Hex(m)[..|front|] == front;
      if Hex(m) == Hex(n) {
        HexLonger(m);
        var other := Hex(n / 16);
        assert Hex(n)[..|other|] == other;
      }
    }
  }

  lemma HexLonger(n: nat)
    ensures |Hex(n)| >= 1 && (n >= 16 ==> |Hex(n)| >= 2)
  {
  }

  ghost predicate UniqueSerials(recs: seq<Record>) {
    forall i, j :: 0 <= i < j < |recs| ==> recs[i].serial != recs[j].serial
  }

  ghost predicate UniqueCaIds(recs: seq<Record>) {
    forall i, j :: 0 <= i < j < |recs| && !recs[i].IsLeaf() && !recs[j].IsLeaf() ==> recs[i].CaId() != recs[j].CaId()
  }

  lemma HexIsNoKeyword(s: string)
    requires ValidSerial(s)
    ensures s != CA_ROOT && s != CA_INTERMEDIATE && s != ""
  {
    assert 'r' in CA_ROOT && 'r' in CA_INTERMEDIATE by {
      assert CA_ROOT[0] == 'r' && CA_INTERMEDIATE[4] == 'r';
    }
  }

  lemma SameIdSameCa(recs: seq<Record>, a: Record, b: Record)
    requires UniqueCaIds(recs) && a in recs && b in recs && !a.IsLeaf() && !b.IsLeaf() && a.CaId() == b.CaId()
    ensures a == b
  {
    var i :| 0 <= i < |recs| && recs[i] == a;
    var j :| 0 <= j < |recs| && recs[j] == b;
  }

  // ----- Everything below one CA -----

  ghost predicate HasChild(recs: seq<Record>, parent: string, child: string) {
    exists r :: r in recs && r.kind.Intermediate? && r.issuerId == parent && r.CaId() == child
  }

  /** Each id on the path after the first is an intermediate issued by the one before. */
  ghost predicate IsDescent(recs: seq<Record>, path: seq<string>) {
    |path| >= 1 && forall k :: 0 < k < |path| ==> HasChild(recs, path[k - 1], path[k])
  }

  ghost predicate Descends(recs: seq<Record>, from: string, id: string) {
    exists path :: IsDescent(recs, path) && path[0] == from && path[|path| - 1] == id
  }

  lemma DescendsReflexive(recs: seq<Record>, id: string)
    ensures Descends(recs, id, id)
  {
    assert IsDescent(recs, [id]) && [id][0] == id;
  }

  lemma DescendsStep(recs: seq<Record>, from: string, parent: string, r: Record)
    requires Descends(recs, from, parent)
    requires r in recs && r.kind.Intermediate? && r.issuerId == parent
    ensures Descends(recs, from, r.CaId())
  {
    var path :| IsDescent(recs, path) && path[0] == from && path[|path| - 1] == parent;
    assert HasChild(recs, parent, r.CaId());
    assert IsDescent(recs, path + [r.CaId()]);
  }

  ghost predicate ClosedDown(recs: seq<Record>, ids: set<string>) {
    forall r :: r in recs && r.kind.Intermediate? && r.issuerId in ids ==> r.CaId() in ids
  }

  /** A set of ids closed under issuing contains everything below its members. */
  lemma {:induction false} ClosedContainsDescent(recs: seq<Record>, ids: set<string>, path: seq<string>)
    requires ClosedDown(recs, ids) && IsDescent(recs, path) && path[0] in ids
    ensures path[|path| - 1] in ids
    decreases |path|
  {
    if |path| <= 1 {
    } else {
      var front := path[..|path| - 1];
      assert IsDescent(recs, front);
      ClosedContainsDescent(recs, ids, front);
      assert HasChild(recs, path[|path| - 2], path[|path| - 1]);
    }
  }

  function Ids(recs: seq<Record>): set<string> {
    set r | r in recs :: r.CaId()
  }

  function LeavesIssuedBy(recs: seq<Record>, ids: set<string>): (r: seq<Record>) {
    if recs == [] then []
    else (if recs[0].IsLeaf() && recs[0].issuerId in ids then [recs[0]] else []) + LeavesIssuedBy(recs[1..], ids)
  }

  lemma {:induction false} LeavesIssuedByMembers(recs: seq<Record>, ids: set<string>, r: Record)
    ensures r in LeavesIssuedBy(recs, ids) <==> r in recs && r.IsLeaf() && r.issuerId in ids
  {
    if recs == [] {
    } else {
      assert recs == [recs[0]] + recs[1..];
      LeavesIssuedByMembers(recs[1..], ids, r);
    }
  }

  lemma {:induction false} LeavesIssuedByAppend(recs: seq<Record>, r: Record, ids: set<string>)
    ensures LeavesIssuedBy(recs + [r], ids) ==
            LeavesIssuedBy(recs, ids) + (if r.IsLeaf() && r.issuerId in ids then [r] else [])
  {
    var more := recs + [r];
    if recs == [] {
      assert more[0] == r && more[1..] == [] && LeavesIssuedBy(more[1..], ids) == [];
    } else {
      assert more[0] == recs[0] && more[1..] == recs[1..] + [r];
      LeavesIssuedByAppend(recs[1..], r, ids);
    }
  }

  datatype Subtree = Subtree(cas: seq<Record>, certs: seq<Record>)

  /** The ids of the CAs found so far are exactly the marks, and all are below id. */
  ghost predicate Collected(recs: seq<Record>, id: string, cas: seq<Record>, marks: set<string>) {
    && marks == Ids(cas)
    && (forall r :: r in cas ==> r in recs && r.kind.Intermediate? && Descends(recs, id, r.CaId()))
  }

  ghost predicate DistinctIds(cas: seq<Record>) {
    forall i, j :: 0 <= i < j < |cas| ==> cas[i].CaId() != cas[j].CaId()
  }

  predicate OwnRecord(r: Record, id: string) {
    r.kind.Intermediate? && r.CaId() == id
  }

  /** At most one intermediate record has this id. */
  ghost predicate Sole(recs: seq<Record>, id: string) {
    forall i, j :: 0 <= i < j < |recs| && OwnRecord(recs[i], id) ==> !OwnRecord(recs[j], id)
  }

  /** sub is everything that hangs below id, id itself included; only id's own records can repeat an id. */
  ghost predicate IsSubtree(recs: seq<Record>, id: string, sub: Subtree) {
    && (forall x :: x in Ids(sub.cas) <==> Descends(recs, id, x))
    && (forall r :: r in sub.cas ==> r in recs && r.kind.Intermediate?)
    && sub.cas != [] && sub.cas[0].CaId() == id
    && (DistinctIds(sub.cas) <==> Sole(recs, id))
    && (UniqueCaIds(recs) ==> DistinctIds(sub.cas) && HoldsAllWithIds(recs, sub.cas))
    && sub.certs == LeavesIssuedBy(recs, Ids(sub.cas))
  }

  ghost predicate HoldsAllWithIds(recs: seq<Record>, cas: seq<Record>) {
    forall r :: r in recs && r.kind.Intermediate? && r.CaId() in Ids(cas) ==> r in cas
  }

  /**
    caSubtree: what deleting CA id removes.  On every record list, cyclic or not, the
    ids collected are exactly those that descend from id; when CA ids are unique, the
    records are exactly the intermediates with such an id, each once, id's own first.
    */
  method CaSubtree(recs: seq<Record>, id: string) returns (res: Result<Subtree, string>)
    ensures res.Err? <==> id == CA_ROOT || !exists r :: r in recs && r.kind.Intermediate? && r.CaId() == id
    ensures res.Ok? ==> IsSubtree(recs, id, res.value)
  {
    hide Collected, DistinctIds, Descends, ChildrenMarked, UniqueCaIds, HoldsAllWithIds, Sole;
    if id == CA_ROOT {
      return Err("the root CA cannot be deleted");
    }
    var cas := Own(recs, id);
    if |cas| == 0 {
      return Err("CA not found");
    }
    var inTree;
    cas, inTree := Below(recs, id, cas);
    UniqueIdsFindRecords(recs, id, cas);
    var certs := IssuedWithin(recs, inTree);
    return Ok(Subtree(cas, certs));
  }

  /** The breadth-first walk over children; cas grows while it is walked. */
  method Below(recs: seq<Record>, id: string, own: seq<Record>) returns (cas: seq<Record>, inTree: set<string>)
    requires own != [] && own[0].CaId() == id && Collected(recs, id, own, {id})
    ensures inTree == Ids(cas) && forall x :: x in inTree <==> Descends(recs, id, x)
    ensures forall r :: r in cas ==> r in recs && r.kind.Intermediate?
    ensures cas != [] && cas[0].CaId() == id
    ensures DistinctIds(own) <==> DistinctIds(cas)
  {
    hide Collected, DistinctIds, Descends, ChildrenMarked, UniqueCaIds, Walked, Ids;
    cas, inTree := own, {id};
    WalkedNone(recs, inTree);
    var i := 0;
    assert cas[..0] == [];
    while i < |cas|
      invariant 0 <= i <= |cas| && cas != [] && cas[0].CaId() == id
      invariant Collected(recs, id, cas, inTree) && id in inTree
      invariant Walked(recs, cas[..i], inTree)
      invariant DistinctIds(own) <==> DistinctIds(cas)
      decreases |Ids(recs) - inTree|, |cas| - i
    {
      ghost var before, done := inTree, cas[..i];
      var ca := cas[i];
      CollectedDescends(recs, id, cas, inTree, i);
      cas, inTree := AddChildren(recs, id, cas, inTree, ca.CaId());
      WalkedMore(recs, done, ca, before, inTree);
      assert cas[..i + 1] == done + [ca];
      i := i + 1;
      if inTree != before {
        MoreMarksLeaveFewer(recs, id, cas, before, inTree);
      }
    }
    assert cas[..i] == cas;
    AllMarked(recs, id, cas, inTree);
  }

  ghost predicate ChildrenMarked(recs: seq<Record>, parent: string, marks: set<string>) {
    forall r :: r in recs && r.kind.Intermediate? && r.issuerId == parent ==> r.CaId() in marks
  }

  ghost predicate Walked(recs: seq<Record>, done: seq<Record>, marks: set<string>) {
    forall c :: c in done ==> ChildrenMarked(recs, c.CaId(), marks)
  }

  lemma WalkedNone(recs: seq<Record>, marks: set<string>)
    ensures Walked(recs, [], marks)
  {
  }

  lemma WalkedMore(recs: seq<Record>, done: seq<Record>, ca: Record, before: set<string>, marks: set<string>)
    requires Walked(recs, done, before) && before <= marks && ChildrenMarked(recs, ca.CaId(), marks)
    ensures Walked(recs, done + [ca], marks)
  {
  }

  lemma CollectedDescends(recs: seq<Record>, id: string, cas: seq<Record>, marks: set<string>, i: nat)
    requires Collected(recs, id, cas, marks) && i < |cas|
    ensures Descends(recs, id, cas[i].CaId())
  {
  }

  /** Once the walk has passed every collected CA, nothing below id is missing. */
  lemma AllMarked(recs: seq<Record>, id: string, cas: seq<Record>, marks: set<string>)
    requires Collected(recs, id, cas, marks) && id in marks
    requires Walked(recs, cas, marks)
    ensures marks == Ids(cas)
    ensures forall x :: x in marks <==> Descends(recs, id, x)
    ensures forall r :: r in cas ==> r in recs && r.kind.Intermediate?
  {
    assert ClosedDown(recs, marks);
    forall x | Descends(recs, id, x)
      ensures x in marks
    {
      var path :| IsDescent(recs, path) && path[0] == id && path[|path| - 1] == x;
      ClosedContainsDescent(recs, marks, path);
    }
  }

  lemma UniqueIdsFindRecords(recs: seq<Record>, id: string, cas: seq<Record>)
    requires forall r :: r in cas ==> r in recs && r.kind.Intermediate?
    ensures UniqueCaIds(recs) ==> HoldsAllWithIds(recs, cas) && Sole(recs, id)
  {
    if UniqueCaIds(recs) {
      forall r | r in recs && r.kind.Intermediate? && r.CaId() in Ids(cas)
        ensures r in cas
      {
        var c :| c in cas && c.CaId() == r.CaId();
        var i :| 0 <= i < |recs| && recs[i] == r;
        var j :| 0 <= j < |recs| && recs[j] == c;
      }
    }
  }

  lemma MoreMarksLeaveFewer(recs: seq<Record>, id: string, cas: seq<Record>, before: set<string>, marks: set<string>)
    requires before < marks && Collected(recs, id, cas, marks)
    ensures |Ids(recs) - marks| < |Ids(recs) - before|
  {
    var x :| x in marks && x !in before;
    assert x in Ids(recs);
    assert Ids(recs) - marks <= Ids(recs) - before - {x};
    SubsetIsSmaller(Ids(recs) - marks, Ids(recs) - before - {x});
  }

  lemma {:induction false} SubsetIsSmaller<T>(a: set<T>, b: set<T>)
    requires a <= b
    ensures |a| <= |b|
  {
    if a == {} {
    } else {
      var x :| x in a;
      SubsetIsSmaller(a - {x}, b - {x});
    }
  }

  /** The records of the CA itself. */
  method Own(recs: seq<Record>, id: string) returns (cas: seq<Record>)
    ensures forall r :: r in cas <==> r in recs && r.kind.Intermediate? && r.CaId() == id
    ensures cas != [] ==> Collected(recs, id, cas, {id})
    ensures DistinctIds(cas) <==> Sole(recs, id)
  {
    hide Sole, Collected, DistinctIds, Descends;
    cas := [];
    SoleNone(id);
    for i := 0 to |recs|
      invariant forall r :: r in cas <==> r in recs[..i] && OwnRecord(r, id)
      invariant |cas| <= 1 <==> Sole(recs[..i], id)
    {
      assert recs[..i + 1] == recs[..i] + [recs[i]];
      SoleAppend(recs[..i], recs[i], id);
      assert cas != [] ==> cas[0] in cas;
      if recs[i].kind.Intermediate? && recs[i].CaId() == id {
        cas := cas + [recs[i]];
      }
    }
    assert recs[..|recs|] == recs;
    OwnCollected(recs, id, cas);
  }

  lemma OwnCollected(recs: seq<Record>, id: string, cas: seq<Record>)
    requires forall r :: r in cas <==> r in recs && OwnRecord(r, id)
    ensures cas != [] ==> Collected(recs, id, cas, {id})
    ensures DistinctIds(cas) <==> |cas| <= 1
  {
    DescendsReflexive(recs, id);
    if |cas| > 0 {
      assert cas[0] in cas;
      assert Ids(cas) == {id};
    }
    if |cas| > 1 {
      assert cas[0] in cas && cas[1] in cas;
    }
  }

  lemma SoleNone(id: string)
    ensures Sole([], id)
  {
  }

  lemma SoleAppend(recs: seq<Record>, r: Record, id: string)
    ensures Sole(recs + [r], id)
       <==> Sole(recs, id) && (OwnRecord(r, id) ==> forall q :: q in recs ==> !OwnRecord(q, id))
  {
    var more := recs + [r];
    if Sole(more, id) {
      forall i, j | 0 <= i < j < |recs| && OwnRecord(recs[i], id)
        ensures !OwnRecord(recs[j], id)
      {
        assert more[i] == recs[i] && more[j] == recs[j];
      }
      forall q | q in recs && OwnRecord(r, id)
        ensures !OwnRecord(q, id)
      {
        var i :| 0 <= i < |recs| && recs[i] == q;
        assert more[i] == q && more[|recs|] == r;
      }
    }
  }

  lemma CollectedAppend(recs: seq<Record>, id: string, cas: seq<Record>, marks: set<string>, r: Record)
    requires Collected(recs, id, cas, marks) && Descends(recs, id, r.issuerId)
    requires r in recs && r.kind.Intermediate? && r.CaId() !in marks
    ensures Collected(recs, id, cas + [r], marks + {r.CaId()})
    ensures DistinctIds(cas) <==> DistinctIds(cas + [r])
  {
    DescendsStep(recs, id, r.issuerId, r);
    assert forall k :: 0 <= k < |cas| ==> (cas + [r])[k] == cas[k];
    assert Ids(cas + [r]) == Ids(cas) + {r.CaId()};
    assert forall c :: c in cas ==> c.CaId() in Ids(cas);
  }

  /** One round of the breadth-first walk. */
  method AddChildren(recs: seq<Record>, ghost id: string, cas0: seq<Record>, marks0: set<string>, parent: string)
    returns (cas: seq<Record>, marks: set<string>)
    requires Collected(recs, id, cas0, marks0) && Descends(recs, id, parent)
    ensures Collected(recs, id, cas, marks) && marks0 <= marks && cas0 <= cas
    ensures marks == marks0 ==> cas == cas0
    ensures ChildrenMarked(recs, parent, marks)
    ensures DistinctIds(cas0) <==> DistinctIds(cas)
  {
    hide Collected, DistinctIds, Descends;
    cas, marks := cas0, marks0;
    for i := 0 to |recs|
      invariant Collected(recs, id, cas, marks) && marks0 <= marks && cas0 <= cas
      invariant marks == marks0 ==> cas == cas0
      invariant forall r :: r in recs[..i] && r.kind.Intermediate? && r.issuerId == parent ==> r.CaId() in marks
      invariant DistinctIds(cas0) <==> DistinctIds(cas)
    {
      var r := recs[i];
      if r.kind.Intermediate? && r.issuerId == parent && r.CaId() !in marks {
        CollectedAppend(recs, id, cas, marks, r);
        marks := marks + {r.CaId()};
        cas := cas + [r];
      }
    }
  }

  /** The certificates issued by the marked CAs, in index order. */
  method IssuedWithin(recs: seq<Record>, ids: set<string>) returns (certs: seq<Record>)
    ensures certs == LeavesIssuedBy(recs, ids)
  {
    certs := [];
    for i := 0 to |recs|
      invariant certs == LeavesIssuedBy(recs[..i], ids)
    {
      LeavesIssuedByAppend(recs[..i], recs[i], ids);
      assert recs[..i + 1] == recs[..i] + [recs[i]];
      if recs[i].IsLeaf() && recs[i].issuerId in ids {
        certs := certs + [recs[i]];
      }
    }
    assert recs[..|recs|] == recs;
  }

  // ----- Moving records to the trash -----

  function Serials(recs: seq<Record>): set<string> {
    set r | r in recs :: r.serial
  }

  lemma SerialsAppend(recs: seq<Record>, r: Record)
    ensures Serials(recs + [r]) == Serials(recs) + {r.serial}
  {
  }

  /** The index after the records with these serials are dropped. */
  function Kept(recs: seq<Record>, gone: set<string>): (r: seq<Record>) {
    if recs == [] then []
    else (if recs[0].serial in gone then [] else [recs[0]]) + Kept(recs[1..], gone)
  }

  function Dropped(recs: seq<Record>, gone: set<string>): (r: seq<Record>) {
    if recs == [] then []
    else (if recs[0].serial in gone then [recs[0]] else []) + Dropped(recs[1..], gone)
  }

  lemma {:induction false} KeptAppend(recs: seq<Record>, r: Record, gone: set<string>)
    ensures Kept(recs + [r], gone) == Kept(recs, gone) + (if r.serial in gone then [] else [r])
  {
    var more := recs + [r];
    if recs == [] {
      assert more[0] == r && more[1..] == [] && Kept(more[1..], gone) == [];
    } else {
      assert more[0] == recs[0] && more[1..] == recs[1..] + [r];
      KeptAppend(recs[1..], r, gone);
      Regroup(if recs[0].serial in gone then [] else [recs[0]], Kept(recs[1..], gone),
              if r.serial in gone then [] else [r]);
    }
  }

  lemma Regroup<T>(a: seq<T>, b: seq<T>, c: seq<T>)
    ensures a + (b + c) == a + b + c
  {
  }

  /** The index without the records under removed serials. */
  method Filter(recs: seq<Record>, removed: seq<Record>) returns (kept: seq<Record>)
    ensures kept == Kept(recs, Serials(removed))
  {
    kept := [];
    for i := 0 to |recs|
      invariant kept == Kept(recs[..i], Serials(removed))
    {
      KeptAppend(recs[..i], recs[i], Serials(removed));
      assert recs[..i + 1] == recs[..i] + [recs[i]];
      if recs[i].serial !in Serials(removed) {
        kept := kept + [recs[i]];
      }
    }
    assert recs[..|recs|] == recs;
  }

  lemma {:induction false} KeptMembers(recs: seq<Record>, gone: set<string>, r: Record)
    ensures r in Kept(recs, gone) <==> r in recs && r.serial !in gone
    ensures r in Dropped(recs, gone) <==> r in recs && r.serial in gone
  {
    if recs == [] {
    } else {
      assert recs == [recs[0]] + recs[1..];
      KeptMembers(recs[1..], gone, r);
    }
  }

  lemma {:induction false} KeptAndDropped(recs: seq<Record>, gone: set<string>)
    ensures multiset(Kept(recs, gone)) + multiset(Dropped(recs, gone)) == multiset(recs)
  {
    if recs == [] {
    } else {
      assert recs == [recs[0]] + recs[1..];
      KeptAndDropped(recs[1..], gone);
    }
  }

  ghost predicate Distinct<T>(s: seq<T>) {
    forall i, j :: 0 <= i < j < |s| ==> s[i] != s[j]
  }

  lemma {:induction false} DistinctCounts<T>(s: seq<T>)
    requires Distinct(s)
    ensures forall x :: multiset(s)[x] == if x in s then 1 else 0
  {
    if s == [] {
    } else {
      assert s == [s[0]] + s[1..];
      DistinctCounts(s[1..]);
    }
  }

  lemma {:induction false} DroppedKeepsSerialsUnique(recs: seq<Record>, gone: set<string>)
    requires UniqueSerials(recs)
    ensures UniqueSerials(Dropped(recs, gone)) && UniqueSerials(Kept(recs, gone))
  {
    if recs == [] {
    } else {
      hide UniqueSerials;
      var rest, kept, dropped := recs[1..], Kept(recs[1..], gone), Dropped(recs[1..], gone);
      UniqueTail(recs);
      DroppedKeepsSerialsUnique(rest, gone);
      forall r
        ensures r in kept || r in dropped ==> r in rest
      {
        KeptMembers(rest, gone, r);
      }
      UniqueCons(recs[0], kept);
      UniqueCons(recs[0], dropped);
      assert [] + kept == kept && [] + dropped == dropped;
    }
  }

  lemma UniqueTail(recs: seq<Record>)
    requires recs != [] && UniqueSerials(recs)
    ensures UniqueSerials(recs[1..]) && forall r :: r in recs[1..] ==> r.serial != recs[0].serial
  {
    forall r | r in recs[1..]
      ensures r.serial != recs[0].serial
    {
      var k :| 0 <= k < |recs[1..]| && recs[1..][k] == r;
      assert recs[k + 1] == r;
    }
  }

  lemma UniqueCons(c: Record, recs: seq<Record>)
    requires UniqueSerials(recs) && forall r :: r in recs ==> r.serial != c.serial
    ensures UniqueSerials([c] + recs)
  {
  }

  /** What is kept and what is removed together are a permutation of the old index. */
  lemma TrashConserves(recs: seq<Record>, removed: seq<Record>)
    requires UniqueSerials(recs) && Distinct(removed)
    requires forall r :: r in removed ==> r in recs
    ensures multiset(Kept(recs, Serials(removed))) + multiset(removed) == multiset(recs)
  {
    hide UniqueSerials, Kept, Dropped, Distinct;
    var gone := Serials(removed);
    var dropped := Dropped(recs, gone);
    DroppedAreDistinct(recs, gone);
    DistinctCounts(dropped);
    DistinctCounts(removed);
    DroppedAreRemoved(recs, removed);
    assert multiset(dropped) == multiset(removed);
    KeptAndDropped(recs, gone);
  }

  lemma DroppedAreDistinct(recs: seq<Record>, gone: set<string>)
    requires UniqueSerials(recs)
    ensures Distinct(Dropped(recs, gone))
  {
    DroppedKeepsSerialsUnique(recs, gone);
  }

  lemma DroppedAreRemoved(recs: seq<Record>, removed: seq<Record>)
    requires UniqueSerials(recs) && forall r :: r in removed ==> r in recs
    ensures forall r :: r in Dropped(recs, Serials(removed)) <==> r in removed
  {
    hide UniqueSerials, Dropped, Kept;
    forall r
      ensures r in Dropped(recs, Serials(removed)) <==> r in removed
    {
      KeptMembers(recs, Serials(removed), r);
      if r in Dropped(recs, Serials(removed)) {
        var s :| s in removed && s.serial == r.serial;
        SameSerialSameRecord(recs, r, s);
      }
    }
  }

  lemma SameSerialSameRecord(recs: seq<Record>, r: Record, s: Record)
    requires UniqueSerials(recs) && r in recs && s in recs && r.serial == s.serial
    ensures r == s
  {
    var i :| 0 <= i < |recs| && recs[i] == r;
    var j :| 0 <= j < |recs| && recs[j] == s;
  }

  lemma {:induction false} LeavesKeepSerialsUnique(recs: seq<Record>, ids: set<string>)
    requires UniqueSerials(recs)
    ensures UniqueSerials(LeavesIssuedBy(recs, ids))
  {
    if recs == [] {
    } else {
      var rest := recs[1..];
      LeavesKeepSerialsUnique(rest, ids);
      forall r | r in LeavesIssuedBy(rest, ids)
        ensures r.serial != recs[0].serial
      {
        LeavesIssuedByMembers(rest, ids, r);
        var k :| 0 <= k < |rest| && rest[k] == r;
        assert recs[k + 1] == r;
      }
    }
  }

  /**
    Cascading deletion on any index with unique serials and CA ids: nothing is lost or
    duplicated, no record that stays names a removed issuer, and every record that goes
    is a removed CA or was issued by one.
    */
  lemma DeletionIsExact(recs: seq<Record>, id: string, sub: Subtree)
    requires UniqueSerials(recs) && UniqueCaIds(recs) && IsSubtree(recs, id, sub)
    ensures var removed := sub.cas + sub.certs;
            var kept := Kept(recs, Serials(removed));
            && Distinct(removed)
            && multiset(kept) + multiset(removed) == multiset(recs)
            && (forall r :: r in kept && !r.kind.RootCa? ==> !Descends(recs, id, r.issuerId))
            && (forall r :: r in kept && r.kind.Intermediate? ==> !Descends(recs, id, r.CaId()))
            && (forall r :: r in removed ==> Descends(recs, id, if r.IsLeaf() then r.issuerId else r.CaId()))
  {
    var removed := sub.cas + sub.certs;
    var kept := Kept(recs, Serials(removed));
    var ids := Ids(sub.cas);
    forall r
      ensures r in sub.certs <==> r in recs && r.IsLeaf() && r.issuerId in ids
    {
      LeavesIssuedByMembers(recs, ids, r);
    }
    LeavesKeepSerialsUnique(recs, ids);
    assert Distinct(removed);
    TrashConserves(recs, removed);
    forall r | r in kept
      ensures r.kind.Intermediate? ==> r.CaId() !in ids && r.issuerId !in ids
      ensures r.IsLeaf() ==> r.issuerId !in ids
    {
      KeptMembers(recs, Serials(removed), r);
      assert r !in removed;
      if r.kind.Intermediate? && r.issuerId in ids {
        DescendsStep(recs, id, r.issuerId, r);
      }
    }
  }
}
