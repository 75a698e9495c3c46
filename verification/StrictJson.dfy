/**
  The strict JSON walk: recursive descent over a token stream that refuses repeated
  object keys, deep nesting and trailing values, before any decoding into a schema.
  */
module StrictJson {
  import opened Wrappers

  const MAX_DEPTH: int := 32

  /** Values as trees; an object is the list of its members in textual order. */
  datatype Json =
    | Atom
    | Str(text: string)
    | Arr(items: seq<Json>)
    | Obj(members: seq<Member>)

  datatype Member = Member(key: string, value: Json)

  /** What the decoder hands out; Scalar is a number, true, false or null. */
  datatype Token = OpenArr | OpenObj | Close | Text(text: string) | Scalar

  // ----- Values and their tokens -----

  function Tokens(j: Json): (r: seq<Token>)
    ensures r != [] && r[0] != Close
    decreases j, 0
  {
    match j
    case Atom => [Scalar]
    case Str(t) => [Text(t)]
    case Arr(items) => [OpenArr] + ItemTokens(items) + [Close]
    case Obj(members) => [OpenObj] + MemberTokens(members) + [Close]
  }

  function ItemTokens(items: seq<Json>): (r: seq<Token>)
    ensures items != [] ==> r != [] && r[0] != Close
    decreases items, 1
  {
    if items == [] then [] else Tokens(items[0]) + ItemTokens(items[1..])
  }

  function MemberTokens(members: seq<Member>): (r: seq<Token>)
    ensures members != [] ==> r != [] && r[0] == Text(members[0].key)
    decreases members, 1
  {
    if members == [] then [] else [Text(members[0].key)] + Tokens(members[0].value) + MemberTokens(members[1..])
  }

  // ----- What the walk is meant to accept -----

  /** No two members have keys equal after lowercasing. */
  predicate DistinctKeys(members: seq<Member>, lower: string -> string) {
    forall i, j :: 0 <= i < j < |members| ==> lower(members[i].key) != lower(members[j].key)
  }

  /** No value has more than MAX_DEPTH containers around it, depth of them outside j, and no object repeats a key. */
  predicate Strict(j: Json, depth: nat, lower: string -> string)
    decreases j, 0
  {
    && depth <= MAX_DEPTH
    && match j
       case Atom => true
       case Str(_) => true
       case Arr(items) => StrictItems(items, depth, lower)
       case Obj(members) => DistinctKeys(members, lower) && StrictMembers(members, depth, lower)
  }

  predicate StrictItems(items: seq<Json>, depth: nat, lower: string -> string)
    decreases items, 1
  {
    forall i :: 0 <= i < |items| ==> Strict(items[i], depth + 1, lower)
  }

  predicate StrictMembers(members: seq<Member>, depth: nat, lower: string -> string)
    decreases members, 1
  {
    forall i :: 0 <= i < |members| ==> Strict(members[i].value, depth + 1, lower)
  }

  // ----- Value by value -----

  /** sub is inside j, with k containers around it. */
  ghost predicate Inside(j: Json, sub: Json, k: nat)
    decreases j
  {
    if k == 0 then sub == j
    else
      match j
      case Atom => false
      case Str(_) => false
      case Arr(items) => exists i :: 0 <= i < |items| && Inside(items[i], sub, k - 1)
      case Obj(members) => exists i :: 0 <= i < |members| && Inside(members[i].value, sub, k - 1)
  }

  /** What is wrong with a value in its place: 33 containers around it, or two keys that differ in case only. */
  ghost predicate Bad(sub: Json, k: nat, lower: string -> string) {
    || k > 32
    || (sub.Obj? && exists a, b :: 0 <= a < b < |sub.members| && lower(sub.members[a].key) == lower(sub.members[b].key))
  }

  ghost predicate Clean(j: Json, depth: nat, lower: string -> string) {
    forall sub, k: nat :: Inside(j, sub, k) ==> !Bad(sub, depth + k, lower)
  }

  lemma {:induction false} StrictInside(j: Json, depth: nat, lower: string -> string)
    ensures Strict(j, depth, lower) <==> Clean(j, depth, lower)
    decreases j
  {
    hide Clean;
    match j
    case Atom => LeafClean(j, depth, lower);
    case Str(_) => LeafClean(j, depth, lower);
    case Arr(items) =>
      forall i | 0 <= i < |items|
        ensures Strict(items[i], depth + 1, lower) <==> Clean(items[i], depth + 1, lower)
      {
        StrictInside(items[i], depth + 1, lower);
      }
      PartsClean(j, items, depth, lower);
    case Obj(members) =>
      var values := seq(|members|, i requires 0 <= i < |members| => members[i].value);
      forall i | 0 <= i < |members|
        ensures Strict(members[i].value, depth + 1, lower) <==> Clean(values[i], depth + 1, lower)
      {
        StrictInside(members[i].value, depth + 1, lower);
      }
      PartsClean(j, values, depth, lower);
  }

  lemma LeafClean(j: Json, depth: nat, lower: string -> string)
    requires j.Atom? || j.Str?
    ensures Clean(j, depth, lower) <==> depth <= 32
  {
    assert Inside(j, j, 0);
  }

  /** What is inside a container is the container, and what is inside its parts. */
  lemma PartsClean(j: Json, parts: seq<Json>, depth: nat, lower: string -> string)
    requires (j.Arr? && parts == j.items)
          || (j.Obj? && |parts| == |j.members| && forall i :: 0 <= i < |parts| ==> parts[i] == j.members[i].value)
    ensures Clean(j, depth, lower) <==>
              !Bad(j, depth, lower) && forall i :: 0 <= i < |parts| ==> Clean(parts[i], depth + 1, lower)
  {
    hide Bad;
    if Clean(j, depth, lower) {
      assert Inside(j, j, 0);
      forall i, sub, k: nat | 0 <= i < |parts| && Inside(parts[i], sub, k)
        ensures !Bad(sub, depth + 1 + k, lower)
      {
        assert Inside(j, sub, k + 1);
        assert depth + (k + 1) == depth + 1 + k;
      }
    }
    if !Bad(j, depth, lower) && forall i :: 0 <= i < |parts| ==> Clean(parts[i], depth + 1, lower) {
      forall sub, k: nat | Inside(j, sub, k)
        ensures !Bad(sub, depth + k, lower)
      {
        if k > 0 {
          var i :| 0 <= i < |parts| && Inside(parts[i], sub, k - 1);
          assert depth + 1 + (k - 1) == depth + k;
        }
      }
    }
  }

  /** A value is strict exactly when nothing inside it, at whatever depth, is bad. */
  lemma StrictIsEverywhere(j: Json, lower: string -> string)
    ensures Strict(j, 0, lower) <==> forall sub, k: nat :: Inside(j, sub, k) ==> !Bad(sub, k, lower)
  {
    StrictInside(j, 0, lower);
  }

  function LowerKeys(members: seq<Member>, lower: string -> string): set<string> {
    set m | m in members :: lower(m.key)
  }

  lemma NoItems(items: seq<Json>, depth: nat, lower: string -> string)
    ensures StrictItems(items[..0], depth, lower)
  {
  }

  lemma ItemIsNext(items: seq<Json>, k: nat, depth: nat, lower: string -> string)
    requires k < |items| && StrictItems(items[..k], depth, lower)
    ensures StrictItems(items[..k + 1], depth, lower) <==> Strict(items[k], depth + 1, lower)
    ensures StrictItems(items, depth, lower) ==> Strict(items[k], depth + 1, lower)
  {
    assert items[..k + 1] == items[..k] + [items[k]];
  }

  lemma NoMembers(members: seq<Member>, depth: nat, lower: string -> string)
    ensures DistinctKeys(members[..0], lower) && LowerKeys(members[..0], lower) == {}
    ensures StrictMembers(members[..0], depth, lower)
  {
  }

  lemma ValueIsNext(members: seq<Member>, k: nat, depth: nat, lower: string -> string)
    requires k < |members| && StrictMembers(members[..k], depth, lower)
    ensures StrictMembers(members[..k + 1], depth, lower) <==> Strict(members[k].value, depth + 1, lower)
    ensures StrictMembers(members, depth, lower) ==> Strict(members[k].value, depth + 1, lower)
  {
    assert members[..k + 1] == members[..k] + [members[k]];
  }

  lemma KeyIsNew(members: seq<Member>, k: nat, lower: string -> string)
    requires k < |members| && DistinctKeys(members[..k], lower)
    ensures lower(members[k].key) in LowerKeys(members[..k], lower) ==> !DistinctKeys(members, lower)
    ensures lower(members[k].key) !in LowerKeys(members[..k], lower) ==> DistinctKeys(members[..k + 1], lower)
    ensures LowerKeys(members[..k + 1], lower) == LowerKeys(members[..k], lower) + {lower(members[k].key)}
  {
    assert members[..k + 1] == members[..k] + [members[k]];
    forall i | 0 <= i < k
      ensures lower(members[i].key) in LowerKeys(members[..k], lower)
    {
      assert members[..k][i] in members[..k];
    }
  }

  // ----- The decoder -----

  /** json.Decoder on well-formed JSON: a position in a token stream. */
  class Decoder {
    const stream: seq<Token>
    var pos: nat

    constructor (stream: seq<Token>)
      ensures this.stream == stream && pos == 0
    {
      this.stream, pos := stream, 0;
    }

    ghost predicate Valid()
      reads this
    {
      pos <= |stream|
    }

    function Rest(): seq<Token>
      requires Valid()
      reads this
    {
      stream[pos..]
    }

    /** Token; None is io.EOF. */
    method Next() returns (t: Option<Token>)
      requires Valid()
      modifies this
      ensures Valid()
      ensures old(Rest()) == [] ==> t == None && Rest() == []
      ensures old(Rest()) != [] ==> t == Some(old(Rest())[0]) && Rest() == old(Rest())[1..]
    {
      if pos == |stream| {
        return None;
      }
      t := Some(stream[pos]);
      pos := pos + 1;
    }

    /** More: whether the open container has another element. */
    method More() returns (more: bool)
      requires Valid()
      ensures more <==> Rest() != [] && Rest()[0] != Close
    {
      more := pos < |stream| && stream[pos] != Close;
    }

    /**
      The walk.  Standing before value j, it accepts exactly when j is strict at this
      depth, and then stands behind j.
      */
    method Walk(depth: nat, lower: string -> string, ghost j: Json, ghost rest: seq<Token>) returns (ok: bool)
      requires Valid() && Rest() == Tokens(j) + rest
      modifies this
      ensures Valid()
      ensures ok <==> Strict(j, depth, lower)
      ensures ok ==> Rest() == rest
      decreases j, 0
    {
      if depth > MAX_DEPTH {
        return false;
      }
      var t := Next();
      match t.value {
        case OpenArr =>
          assert Rest() == ItemTokens(j.items) + [Close] + rest;
          ok := WalkItems(depth, lower, j.items, rest);
        case OpenObj =>
          assert Rest() == MemberTokens(j.members) + [Close] + rest;
          ok := WalkMembers(depth, lower, j.members, rest);
        case Text(_) =>
          assert Rest() == rest;
          return true;
        case Scalar =>
          assert Rest() == rest;
          return true;
      }
    }

    /** The loop of the walk inside an array, and the closing bracket. */
    method WalkItems(
      depth: nat, lower: string -> string, ghost items: seq<Json>, ghost rest: seq<Token>)
      returns (ok: bool)
      requires Valid() && Rest() == ItemTokens(items) + [Close] + rest && depth <= MAX_DEPTH
      modifies this
      ensures Valid()
      ensures ok <==> StrictItems(items, depth, lower)
      ensures ok ==> Rest() == rest
      decreases items, 1
    {
      hide Tokens, ItemTokens, Strict, StrictItems;
      ghost var k := 0;
      var more := More();
      ItemsFrom(items, 0, rest);
      NoItems(items, depth, lower);
      while more
        invariant Valid() && k <= |items| && Rest() == ItemTokens(items[k..]) + [Close] + rest
        invariant more <==> k < |items|
        invariant StrictItems(items[..k], depth, lower)
        decreases |items| - k
      {
        ItemsFrom(items, k, rest);
        ItemIsNext(items, k, depth, lower);
        ok := Walk(depth + 1, lower, items[k], ItemTokens(items[k + 1..]) + [Close] + rest);
        if !ok {
          return;
        }
        k := k + 1;
        ItemsFrom(items, k, rest);
        more := More();
      }
      ItemsFrom(items, k, rest);
      assert items[..k] == items && ([Close] + rest)[1..] == rest;
      var t := Next();
      return true;
    }

    /** The loop of the walk inside an object: each key is read and compared before its value. */
    method WalkMembers(
      depth: nat, lower: string -> string, ghost members: seq<Member>, ghost rest: seq<Token>) returns (ok: bool)
      requires Valid() && Rest() == MemberTokens(members) + [Close] + rest && depth <= MAX_DEPTH
      modifies this
      ensures Valid()
      ensures ok <==> DistinctKeys(members, lower) && StrictMembers(members, depth, lower)
      ensures ok ==> Rest() == rest
      decreases members, 1
    {
      hide Tokens, MemberTokens, Strict, StrictMembers, DistinctKeys, LowerKeys;
      ghost var k := 0;
      var seen: set<string> := {};
      var more := More();
      MembersFrom(members, 0, rest);
      NoMembers(members, depth, lower);
      while more
        invariant Valid() && k <= |members| && Rest() == MemberTokens(members[k..]) + [Close] + rest
        invariant more <==> k < |members|
        invariant seen == LowerKeys(members[..k], lower) && DistinctKeys(members[..k], lower)
        invariant StrictMembers(members[..k], depth, lower)
        decreases |members| - k
      {
        MembersFrom(members, k, rest);
        KeyIsNew(members, k, lower);
        ValueIsNext(members, k, depth, lower);
        var token := Next();
        assert token == Some(Text(members[k].key));
        var key := lower(token.value.text);
        if key in seen {
          return false;
        }
        seen := seen + {key};
        ok := Walk(depth + 1, lower, members[k].value, MemberTokens(members[k + 1..]) + [Close] + rest);
        if !ok {
          return;
        }
        k := k + 1;
        MembersFrom(members, k, rest);
        more := More();
      }
      AllMembersRead(members, k, rest);
      var t := Next();
      return true;
    }
  }

  lemma ItemsFrom(items: seq<Json>, k: nat, rest: seq<Token>)
    requires k <= |items|
    ensures items[0..] == items
    ensures k < |items| ==>
            ItemTokens(items[k..]) + [Close] + rest == Tokens(items[k]) + (ItemTokens(items[k + 1..]) + [Close] + rest)
    ensures k == |items| ==> ItemTokens(items[k..]) + [Close] + rest == [Close] + rest
  {
    if k < |items| {
      assert items[k..][1..] == items[k + 1..];
    }
  }

  ghost predicate MembersAre(members: seq<Member>, k: nat, rest: seq<Token>)
    requires k < |members|
  {
    var after := MemberTokens(members[k + 1..]) + [Close] + rest;
    MemberTokens(members[k..]) + [Close] + rest == [Text(members[k].key)] + (Tokens(members[k].value) + after)
  }

  lemma MembersFrom(members: seq<Member>, k: nat, rest: seq<Token>)
    requires k <= |members|
    ensures members[0..] == members
    ensures k < |members| ==> MembersAre(members, k, rest)
    ensures k == |members| ==> MemberTokens(members[k..]) + [Close] + rest == [Close] + rest
  {
    if k < |members| {
      assert members[k..][1..] == members[k + 1..];
    }
  }

  lemma AllMembersRead(members: seq<Member>, k: nat, rest: seq<Token>)
    requires k == |members|
    ensures members[..k] == members
    ensures MemberTokens(members[k..]) + [Close] + rest == [Close] + rest && ([Close] + rest)[1..] == rest
  {
    MembersFrom(members, k, rest);
  }

  /** The checks of strictJSON before decoding, on the tokens of a value and whatever follows it. */
  method StrictJSON(
    ghost j: Json, ghost trailing: seq<Token>, stream: seq<Token>, lower: string -> string) returns (ok: bool)
    requires stream == Tokens(j) + trailing
    ensures ok <==> Strict(j, 0, lower) && trailing == []
  {
    var d := new Decoder(stream);
    assert d.Rest() == stream;
    ok := d.Walk(0, lower, j, trailing);
    if !ok {
      return;
    }
    var t := d.Next();
    ok := t.None?;
  }

  // ----- The tokens determine the value -----

  lemma InsideBrackets(open: Token, inner: seq<Token>, x: seq<Token>)
    ensures (([open] + inner + [Close]) + x)[1..] == inner + ([Close] + x)
  {
  }

  lemma FirstMember(a: seq<Member>, x: seq<Token>)
    requires a != []
    ensures var s := MemberTokens(a) + ([Close] + x);
            && s[0] == Text(a[0].key)
            && s[1..] == Tokens(a[0].value) + (MemberTokens(a[1..]) + ([Close] + x))
  {
    Regroup(Text(a[0].key), Tokens(a[0].value), MemberTokens(a[1..]), [Close] + x);
  }

  lemma Regroup(key: Token, value: seq<Token>, more: seq<Token>, x: seq<Token>)
    ensures ([key] + value + more) + x == [key] + (value + (more + x))
  {
  }

  lemma {:induction false} TokensAreUnambiguous(a: Json, b: Json, x: seq<Token>, y: seq<Token>)
    requires Tokens(a) + x == Tokens(b) + y
    ensures a == b && x == y
    decreases a, 0
  {
    var s := Tokens(a) + x;
    assert s[0] == Tokens(a)[0] == Tokens(b)[0];
    match a
    case Atom =>
      assert s[1..] == x && s[1..] == y;
    case Str(t) =>
      assert s[1..] == x && s[1..] == y;
    case Arr(items) =>
      InsideBrackets(OpenArr, ItemTokens(items), x);
      InsideBrackets(OpenArr, ItemTokens(b.items), y);
      ItemTokensAreUnambiguous(items, b.items, x, y);
    case Obj(members) =>
      InsideBrackets(OpenObj, MemberTokens(members), x);
      InsideBrackets(OpenObj, MemberTokens(b.members), y);
      MemberTokensAreUnambiguous(members, b.members, x, y);
  }

  lemma ItemTokensEnd(a: seq<Json>, x: seq<Token>)
    ensures (ItemTokens(a) + ([Close] + x))[0] == Close <==> a == []
  {
    if a != [] {
      assert ItemTokens(a)[0] != Close;
    }
  }

  lemma MemberTokensEnd(a: seq<Member>, x: seq<Token>)
    ensures (MemberTokens(a) + ([Close] + x))[0] == Close <==> a == []
  {
    if a != [] {
      assert MemberTokens(a)[0] != Close;
    }
  }

  lemma {:induction false} ItemTokensAreUnambiguous(a: seq<Json>, b: seq<Json>, x: seq<Token>, y: seq<Token>)
    requires ItemTokens(a) + ([Close] + x) == ItemTokens(b) + ([Close] + y)
    ensures a == b && x == y
    decreases a, 1
  {
    var s := ItemTokens(a) + ([Close] + x);
    if a == [] || b == [] {
      ItemTokensEnd(a, x);
      ItemTokensEnd(b, y);
      assert s[1..] == x && s[1..] == y;
    } else {
      var u, v := ItemTokens(a[1..]) + ([Close] + x), ItemTokens(b[1..]) + ([Close] + y);
      assert s == Tokens(a[0]) + u && s == Tokens(b[0]) + v;
      TokensAreUnambiguous(a[0], b[0], u, v);
      ItemTokensAreUnambiguous(a[1..], b[1..], x, y);
      assert a == [a[0]] + a[1..] && b == [b[0]] + b[1..];
    }
  }

  lemma {:induction false} MemberTokensAreUnambiguous(a: seq<Member>, b: seq<Member>, x: seq<Token>, y: seq<Token>)
    requires MemberTokens(a) + ([Close] + x) == MemberTokens(b) + ([Close] + y)
    ensures a == b && x == y
    decreases a, 1
  {
    var s := MemberTokens(a) + ([Close] + x);
    if a == [] || b == [] {
      MemberTokensEnd(a, x);
      MemberTokensEnd(b, y);
      assert s[1..] == x && s[1..] == y;
    } else {
      var u, v := MemberTokens(a[1..]) + ([Close] + x), MemberTokens(b[1..]) + ([Close] + y);
      FirstMember(a, x);
      FirstMember(b, y);
      TokensAreUnambiguous(a[0].value, b[0].value, u, v);
      MemberTokensAreUnambiguous(a[1..], b[1..], x, y);
      assert a == [a[0]] + a[1..] && b == [b[0]] + b[1..];
    }
  }
}
