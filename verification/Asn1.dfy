/**
  The ASN.1 framing preflight that every SCEP message passes before any library
  parses it: one loop over the bytes with an explicit stack of region ends and
  budgets for depth, objects and cumulative encoded length.  It is proved to
  recognise exactly the definite, minimal encodings (ITU-T X.690 sections 8.1.2,
  8.1.3 and 10.1) of one tree within the budgets.
  */
module Asn1 {
  import opened Wrappers

  type Byte = b: int | 0 <= b < 256

  const MAX_MESSAGE: int := 0x10_0000
  const MAX_DEPTH: int := 32
  const MAX_NODES: int := 8192
  const MAX_WORK: int := 8 * MAX_MESSAGE

  // ----- The grammar -----

  datatype Tlv =
    | Primitive(tag: Byte, content: seq<Byte>)
    | Constructed(tag: Byte, items: seq<Tlv>)

  /** Neither end-of-contents nor a high tag number, which would need more identifier bytes. */
  predicate LowTag(tag: Byte) {
    tag != 0 && tag % 32 != 31
  }

  /** Bit 6 of the identifier. */
  predicate ConstructedBit(tag: Byte) {
    tag / 32 % 2 == 1
  }

  /** The masks of the identifier octet (X.690 section 8.1.2): bit 6 is the form, the low five are the number. */
  lemma IdentifierBits(tag: Byte)
    ensures ConstructedBit(tag) <==> (tag as bv8) & 0x20 != 0
    ensures LowTag(tag) <==> tag as bv8 != 0 && (tag as bv8) & 0x1f != 0x1f
  {
    assert (tag as bv8) & 0x20 != 0 <==> tag / 32 % 2 == 1;
    assert (tag as bv8) & 0x1f == 0x1f <==> tag % 32 == 31;
  }

  predicate WellFormed(t: Tlv)
    decreases t, 1
  {
    && LowTag(t.tag)
    && ConstructedBit(t.tag) == t.Constructed?
    && (t.Constructed? ==> WellFormedAll(t.items))
  }

  predicate WellFormedAll(ts: seq<Tlv>)
    decreases ts, 0
  {
    ts == [] || (WellFormed(ts[0]) && WellFormedAll(ts[1..]))
  }

  /** Base-256 digits, most significant first, without leading zeros. */
  function BigEndian(n: nat): (r: seq<int>)
    ensures |r| >= 1
  {
    if n < 256 then [n] else BigEndian(n / 256) + [n % 256]
  }

  /** The only minimal definite length octets for n. */
  function EncodeLength(n: nat): (r: seq<int>) {
    if n < 128 then [n] else [128 + |BigEndian(n)|] + BigEndian(n)
  }

  /** The length octets written out (X.690 section 8.1.3). */
  lemma LengthOctets(n: nat)
    requires n < 0x100_0000
    ensures EncodeLength(n) ==
            if n < 0x80 then [n]
            else if n < 0x100 then [0x81, n]
            else if n < 0x1_0000 then [0x82, n / 256, n % 256]
            else [0x83, n / 65536, n / 256 % 256, n % 256]
  {
    if n >= 0x1_0000 {
      assert n / 256 / 256 == n / 65536 < 256;
      assert BigEndian(n / 256) == [n / 65536, n / 256 % 256];
    } else if n >= 0x100 {
      assert BigEndian(n) == [n / 256, n % 256];
    }
  }

  /** The content octets of an object, whichever its form. */
  function Body(t: Tlv): (r: seq<int>)
    decreases t, 0
  {
    if t.Primitive? then t.content else EncodeAll(t.items)
  }

  function Encode(t: Tlv): (r: seq<int>)
    decreases t, 1
  {
    [t.tag] + EncodeLength(|Body(t)|) + Body(t)
  }

  function EncodeAll(ts: seq<Tlv>): (r: seq<int>)
    decreases ts, 0
  {
    if ts == [] then [] else Encode(ts[0]) + EncodeAll(ts[1..])
  }

  /** Number of levels of a list of trees: the deepest nesting of objects. */
  function Levels(ts: seq<Tlv>): (r: nat)
    decreases ts
  {
    if ts == [] then 0
    else
      var first := 1 + if ts[0].Primitive? then 0 else Levels(ts[0].items);
      var rest := Levels(ts[1..]);
      if first > rest then first else rest
  }

  function Nodes(ts: seq<Tlv>): (r: nat)
    decreases ts
  {
    if ts == [] then 0
    else 1 + (if ts[0].Primitive? then 0 else Nodes(ts[0].items)) + Nodes(ts[1..])
  }

  /** Sum of the encoded lengths of all objects, which is what the library copies. */
  function Work(ts: seq<Tlv>): (r: nat)
    decreases ts
  {
    if ts == [] then 0
    else |Encode(ts[0])| + (if ts[0].Primitive? then 0 else Work(ts[0].items)) + Work(ts[1..])
  }

  /** t is a tree of low tags within the three budgets. */
  predicate WithinBudgets(t: Tlv) {
    && WellFormed(t)
    && Levels([t]) <= MAX_DEPTH
    && Nodes([t]) <= MAX_NODES
    && Work([t]) <= MAX_WORK
  }

  ghost predicate Acceptable(raw: seq<Byte>) {
    0 < |raw| <= MAX_MESSAGE && exists t :: Encode(t) == raw && WithinBudgets(t)
  }

  lemma SizeLimit(raw: seq<Byte>)
    requires |raw| == 0 || |raw| > MAX_MESSAGE
    ensures !Acceptable(raw)
  {
  }

  // ----- Decoding one header -----

  datatype Header = Header(tag: Byte, length: nat, size: nat)

  function BigEndianValue(digits: seq<Byte>): (r: nat) {
    if digits == [] then 0
    else BigEndianValue(digits[..|digits| - 1]) * 256 + digits[|digits| - 1]
  }

  /** The identifier and length octets at pos of an object that must end by end. */
  function ReadHeader(raw: seq<Byte>, pos: nat, end: nat): (r: Option<Header>)
    requires pos <= end <= |raw|
  {
    if end - pos < 2 || !LowTag(raw[pos]) then None
    else if raw[pos + 1] < 128 then
      if raw[pos + 1] > end - pos - 2 then None else Some(Header(raw[pos], raw[pos + 1], 2))
    else
      var n := raw[pos + 1] - 128;
      if n == 0 || n > 3 || n > end - pos - 2 || raw[pos + 2] == 0 then None
      else
        var length := BigEndianValue(raw[pos + 2..pos + 2 + n]);
        if length < 128 || length > end - pos - 2 - n then None
        else Some(Header(raw[pos], length, 2 + n))
  }

  lemma {:induction false} BigEndianOfValue(d: seq<Byte>)
    requires 1 <= |d| && d[0] != 0
    ensures BigEndian(BigEndianValue(d)) == d
    ensures BigEndianValue(d) >= 1
  {
    var init, last := d[..|d| - 1], d[|d| - 1];
    if |d| == 1 {
      assert init == [];
      assert d == [last];
    } else {
      BigEndianOfValue(init);
      assert BigEndianValue(d) / 256 == BigEndianValue(init);
      assert BigEndianValue(d) % 256 == last;
      assert d == init + [last];
    }
  }

  lemma {:induction false} ValueOfBigEndian(n: nat)
    requires n >= 1
    ensures forall i :: 0 <= i < |BigEndian(n)| ==> 0 <= BigEndian(n)[i] < 256
    ensures BigEndianValue(BigEndian(n)) == n && BigEndian(n)[0] != 0
    ensures n < 0x100_0000 ==> |BigEndian(n)| <= 3
  {
    if n < 256 {
      assert BigEndianValue([n]) == BigEndianValue([]) * 256 + n;
    } else {
      ValueOfBigEndian(n / 256);
      var d: seq<Byte> := BigEndian(n);
      assert d[..|d| - 1] == BigEndian(n / 256);
      if n < 0x100_0000 {
        assert n / 256 < 0x1_0000;
        if n / 256 >= 256 { assert n / 256 / 256 < 256; }
      }
    }
  }

  lemma HeaderSound(raw: seq<Byte>, pos: nat, end: nat)
    requires pos <= end <= |raw| && ReadHeader(raw, pos, end).Some?
    ensures var h := ReadHeader(raw, pos, end).value;
            && h.size >= 2 && pos + h.size + h.length <= end
            && raw[pos..pos + h.size] == [h.tag] + EncodeLength(h.length)
            && LowTag(h.tag)
  {
    var h := ReadHeader(raw, pos, end).value;
    if raw[pos + 1] >= 128 {
      var digits := raw[pos + 2..pos + h.size];
      BigEndianOfValue(digits);
      assert raw[pos..pos + h.size] == [raw[pos], raw[pos + 1]] + digits;
    }
  }

  lemma SliceOf(raw: seq<Byte>, pos: nat, end: nat, i: nat, j: nat)
    requires pos <= end <= |raw| && i <= j <= end - pos
    ensures raw[pos..end][i..j] == raw[pos + i..pos + j]
  {
    assert forall k :: 0 <= k < j - i ==> raw[pos..end][i..j][k] == raw[pos + i..pos + j][k];
  }

  lemma HeaderComplete(raw: seq<Byte>, pos: nat, end: nat, tag: Byte, length: nat)
    requires LowTag(tag) && length < 0x100_0000
    requires pos + 1 + |EncodeLength(length)| + length <= end <= |raw|
    requires raw[pos..pos + 1 + |EncodeLength(length)|] == [tag] + EncodeLength(length)
    ensures ReadHeader(raw, pos, end) == Some(Header(tag, length, 1 + |EncodeLength(length)|))
  {
    hide BigEndian, BigEndianValue;
    var head := [tag] + EncodeLength(length);
    assert raw[pos] == raw[pos..pos + |head|][0] && raw[pos + 1] == raw[pos..pos + |head|][1];
    if length >= 128 {
      LongLength(raw, pos, tag, length);
    }
  }

  lemma LongLength(raw: seq<Byte>, pos: nat, tag: Byte, length: nat)
    requires 128 <= length < 0x100_0000 && pos + 1 + |EncodeLength(length)| <= |raw|
    requires raw[pos..pos + 1 + |EncodeLength(length)|] == [tag] + EncodeLength(length)
    ensures var n := |EncodeLength(length)| - 1;
            && 1 <= n <= 3 && EncodeLength(length)[0] == 128 + n && raw[pos + 2] != 0
            && BigEndianValue(raw[pos + 2..pos + 2 + n]) == length
  {
    hide BigEndian, BigEndianValue;
    ValueOfBigEndian(length);
    var head, n := [tag] + EncodeLength(length), |BigEndian(length)|;
    SliceOf(raw, pos, pos + |head|, 2, |head|);
    assert head[2..] == BigEndian(length);
    assert raw[pos + 2..pos + 2 + n][0] == raw[pos + 2];
  }

  /** The position just after the first object. */
  function StopOf(raw: seq<Byte>, pos: nat, end: nat): (r: nat)
    requires pos <= end <= |raw| && ReadHeader(raw, pos, end).Some?
    ensures pos + 2 <= r <= end
    ensures 2 <= ReadHeader(raw, pos, end).value.size && pos + ReadHeader(raw, pos, end).value.size <= r
  {
    var h := ReadHeader(raw, pos, end).value;
    pos + h.size + h.length
  }

  // ----- Recursive descent, the bridge between loop and grammar -----

  /** The objects that fill raw[pos..end], all at nesting level depth. */
  function Decode(raw: seq<Byte>, pos: nat, end: nat, depth: nat): (r: Option<seq<Tlv>>)
    requires pos <= end <= |raw|
    decreases end - pos
  {
    if pos == end then Some([])
    else if depth >= MAX_DEPTH then None
    else
      match ReadHeader(raw, pos, end)
      case None => None
      case Some(h) =>
        var stop := StopOf(raw, pos, end);
        if ConstructedBit(h.tag) then
          match Decode(raw, pos + h.size, stop, depth + 1)
          case None => None
          case Some(items) => Prepend(Constructed(h.tag, items), Decode(raw, stop, end, depth))
        else Prepend(Primitive(h.tag, raw[pos + h.size..stop]), Decode(raw, stop, end, depth))
  }

  function Prepend(t: Tlv, rest: Option<seq<Tlv>>): Option<seq<Tlv>> {
    match rest
    case None => None
    case Some(ts) => Some([t] + ts)
  }

  lemma EncodeFirst(raw: seq<Byte>, pos: nat, end: nat, t: Tlv)
    requires pos < end <= |raw| && ReadHeader(raw, pos, end).Some?
    requires t.tag == ReadHeader(raw, pos, end).value.tag
    requires Body(t) == raw[pos + ReadHeader(raw, pos, end).value.size..StopOf(raw, pos, end)]
    ensures Encode(t) == raw[pos..StopOf(raw, pos, end)]
  {
    hide ReadHeader, BigEndian, EncodeLength, Body;
    HeaderSound(raw, pos, end);
    var body, stop := pos + ReadHeader(raw, pos, end).value.size, StopOf(raw, pos, end);
    assert |Body(t)| == stop - body;
    assert raw[pos..stop] == raw[pos..body] + raw[body..stop];
  }

  lemma {:induction false} DecodeSound(raw: seq<Byte>, pos: nat, end: nat, depth: nat)
    requires pos <= end <= |raw|
    requires Decode(raw, pos, end, depth).Some?
    ensures EncodeAll(Decode(raw, pos, end, depth).value) == raw[pos..end]
    decreases end - pos
  {
    hide ReadHeader, EncodeLength;
    if pos == end {
    } else {
      var ts := Decode(raw, pos, end, depth).value;
      var h, stop := ReadHeader(raw, pos, end).value, StopOf(raw, pos, end);
      if ConstructedBit(h.tag) {
        DecodeSound(raw, pos + h.size, stop, depth + 1);
      }
      EncodeFirst(raw, pos, end, ts[0]);
      DecodeSound(raw, stop, end, depth);
      assert ts[1..] == Decode(raw, stop, end, depth).value;
      assert raw[pos..end] == raw[pos..stop] + raw[stop..end];
    }
  }

  lemma {:induction false} DecodeFits(raw: seq<Byte>, pos: nat, end: nat, depth: nat)
    requires pos <= end <= |raw|
    requires Decode(raw, pos, end, depth).Some?
    ensures var ts := Decode(raw, pos, end, depth).value;
            WellFormedAll(ts) && (ts != [] ==> depth + Levels(ts) <= MAX_DEPTH)
    decreases end - pos
  {
    if pos == end {
    } else {
      var ts := Decode(raw, pos, end, depth).value;
      var h, stop := ReadHeader(raw, pos, end).value, StopOf(raw, pos, end);
      if ConstructedBit(h.tag) {
        DecodeFits(raw, pos + h.size, stop, depth + 1);
      }
      DecodeFits(raw, stop, end, depth);
      assert ts[1..] == Decode(raw, stop, end, depth).value;
    }
  }

  /** Bytes that encode a nonempty list of trees start with the header of the first one. */
  lemma FirstObject(raw: seq<Byte>, pos: nat, end: nat, ts: seq<Tlv>)
    requires pos <= end <= |raw| && end - pos < 0x100_0000
    requires ts != [] && LowTag(ts[0].tag) && EncodeAll(ts) == raw[pos..end]
    ensures pos < end && ReadHeader(raw, pos, end).Some?
    ensures var h, stop := ReadHeader(raw, pos, end).value, StopOf(raw, pos, end);
            && h.tag == ts[0].tag && pos + h.size <= stop
            && Body(ts[0]) == raw[pos + h.size..stop]
            && EncodeAll(ts[1..]) == raw[stop..end]
  {
    hide ReadHeader, BigEndian, EncodeLength;
    var t, body := ts[0], Body(ts[0]);
    var head := [t.tag] + EncodeLength(|body|);
    var code, tail := EncodeAll(ts), EncodeAll(ts[1..]);
    FirstEncoding(ts);
    Pieces(head, body, tail);
    SliceOf(raw, pos, end, 0, |head|);
    SliceOf(raw, pos, end, |head|, |head| + |body|);
    SliceOf(raw, pos, end, |head| + |body|, |code|);
    HeaderComplete(raw, pos, end, t.tag, |body|);
  }

  lemma FirstEncoding(ts: seq<Tlv>)
    requires ts != []
    ensures EncodeAll(ts) == [ts[0].tag] + EncodeLength(|Body(ts[0])|) + Body(ts[0]) + EncodeAll(ts[1..])
  {
    hide EncodeLength;
  }

  lemma Pieces(head: seq<int>, body: seq<int>, tail: seq<int>)
    ensures var s := head + body + tail;
            s[..|head|] == head && s[|head|..|head| + |body|] == body && s[|head| + |body|..] == tail
  {
  }

  lemma DecodeCons(raw: seq<Byte>, pos: nat, end: nat, depth: nat, t: Tlv, rest: seq<Tlv>)
    requires pos < end <= |raw| && depth < MAX_DEPTH && ReadHeader(raw, pos, end).Some?
    requires ConstructedBit(t.tag) == t.Constructed?
    requires var h, stop := ReadHeader(raw, pos, end).value, StopOf(raw, pos, end);
             && h.tag == t.tag
             && (t.Constructed? ==> Decode(raw, pos + h.size, stop, depth + 1) == Some(t.items))
             && (t.Primitive? ==> t.content == raw[pos + h.size..stop])
             && Decode(raw, stop, end, depth) == Some(rest)
    ensures Decode(raw, pos, end, depth) == Some([t] + rest)
  {
    hide ReadHeader, StopOf;
  }

  lemma DecodeEmpty(raw: seq<Byte>, pos: nat, end: nat, depth: nat)
    requires pos <= end <= |raw| && EncodeAll([]) == raw[pos..end]
    ensures Decode(raw, pos, end, depth) == Some([])
  {
    assert |raw[pos..end]| == 0;
  }

  lemma {:induction false} DecodeComplete(raw: seq<Byte>, pos: nat, end: nat, depth: nat, ts: seq<Tlv>)
    requires pos <= end <= |raw| && end - pos < 0x100_0000
    requires EncodeAll(ts) == raw[pos..end] && WellFormedAll(ts)
    requires ts != [] ==> depth + Levels(ts) <= MAX_DEPTH
    ensures Decode(raw, pos, end, depth) == Some(ts)
    decreases end - pos
  {
    hide ReadHeader, EncodeAll, Decode, StopOf;
    if ts == [] {
      DecodeEmpty(raw, pos, end, depth);
    } else {
      var t, rest := ts[0], ts[1..];
      FirstObject(raw, pos, end, ts);
      var h, stop := ReadHeader(raw, pos, end).value, StopOf(raw, pos, end);
      DecodeComplete(raw, stop, end, depth, rest);
      if t.Constructed? {
        DecodeComplete(raw, pos + h.size, stop, depth + 1, t.items);
      }
      DecodeCons(raw, pos, end, depth, t, rest);
      assert ts == [t] + rest;
    }
  }

  /** Accepted bytes determine the tree: two trees with the same encoding are the same tree. */
  lemma EncodingIsUnique(raw: seq<Byte>, s: Tlv, t: Tlv)
    requires |raw| <= MAX_MESSAGE
    requires Encode(s) == raw && WithinBudgets(s)
    requires Encode(t) == raw && WithinBudgets(t)
    ensures s == t
  {
    SingletonCosts(s);
    SingletonCosts(t);
    DecodeComplete(raw, 0, |raw|, 0, [s]);
    DecodeComplete(raw, 0, |raw|, 0, [t]);
    assert [s][0] == [t][0];
  }

  lemma SingletonCosts(t: Tlv)
    ensures EncodeAll([t]) == Encode(t) && (WellFormed(t) <==> WellFormedAll([t]))
  {
    assert [t][1..] == [];
    assert Encode(t) + [] == Encode(t);
  }

  /** Acceptable in terms of Decode: one object at top level, within the budgets. */
  lemma AcceptableIffDecoded(raw: seq<Byte>)
    requires 0 < |raw| <= MAX_MESSAGE
    ensures Acceptable(raw) <==>
            var d := Decode(raw, 0, |raw|, 0);
            d.Some? && |d.value| == 1 && Nodes(d.value) <= MAX_NODES && Work(d.value) <= MAX_WORK
  {
    assert raw[0..|raw|] == raw;
    var d := Decode(raw, 0, |raw|, 0);
    if d.Some? && |d.value| == 1 && Nodes(d.value) <= MAX_NODES && Work(d.value) <= MAX_WORK {
      DecodeSound(raw, 0, |raw|, 0);
      DecodeFits(raw, 0, |raw|, 0);
      var t := d.value[0];
      assert d.value == [t];
      SingletonCosts(t);
      assert Encode(t) == raw && WithinBudgets(t);
    }
    if Acceptable(raw) {
      var t :| Encode(t) == raw && WithinBudgets(t);
      SingletonCosts(t);
      DecodeComplete(raw, 0, |raw|, 0, [t]);
    }
  }

  /** The content of a message is itself a sequence of encodings, with one level and one object less to spend. */
  ghost predicate Entered(raw: seq<Byte>)
    requires raw != []
  {
    exists items ::
      && WellFormedAll(items) && raw == [raw[0]] + EncodeLength(|EncodeAll(items)|) + EncodeAll(items)
      && 1 + Levels(items) <= 32 && 1 + Nodes(items) <= 8192 && |raw| + Work(items) <= 8 * 1024 * 1024
  }

  ghost predicate Opaque(raw: seq<Byte>)
    requires raw != []
  {
    exists content: seq<Byte> :: raw == [raw[0]] + EncodeLength(|content|) + content
  }

  /** What the first octet demands of the rest: a constructed message is examined inside, a primitive one is not. */
  ghost predicate Framed(raw: seq<Byte>) {
    && 0 < |raw| <= 1024 * 1024 && raw[0] as bv8 != 0 && (raw[0] as bv8) & 0x1f != 0x1f
    && if (raw[0] as bv8) & 0x20 != 0 then Entered(raw) else Opaque(raw)
  }

  lemma FirstOctetDecides(raw: seq<Byte>)
    ensures Acceptable(raw) <==> Framed(raw)
  {
    hide EncodeLength, EncodeAll;
    if 0 < |raw| <= MAX_MESSAGE {
      IdentifierBits(raw[0]);
      if Acceptable(raw) {
        var t :| Encode(t) == raw && WithinBudgets(t);
        SingletonCosts(t);
        TopCosts(t);
      }
      if LowTag(raw[0]) && ConstructedBit(raw[0]) && Entered(raw) {
        var items :|
          && WellFormedAll(items) && raw == [raw[0]] + EncodeLength(|EncodeAll(items)|) + EncodeAll(items)
          && 1 + Levels(items) <= MAX_DEPTH && 1 + Nodes(items) <= MAX_NODES && |raw| + Work(items) <= MAX_WORK;
        TopCosts(Constructed(raw[0], items));
        assert WithinBudgets(Constructed(raw[0], items));
      }
      if LowTag(raw[0]) && !ConstructedBit(raw[0]) && Opaque(raw) {
        var content: seq<Byte> :| raw == [raw[0]] + EncodeLength(|content|) + content;
        TopCosts(Primitive(raw[0], content));
        assert WithinBudgets(Primitive(raw[0], content));
      }
    }
  }

  lemma TopCosts(t: Tlv)
    ensures Encode(t) == [t.tag] + EncodeLength(|Body(t)|) + Body(t) && Encode(t)[0] == t.tag
    ensures Levels([t]) == 1 + (if t.Constructed? then Levels(t.items) else 0)
    ensures Nodes([t]) == 1 + (if t.Constructed? then Nodes(t.items) else 0)
    ensures Work([t]) == |Encode(t)| + (if t.Constructed? then Work(t.items) else 0)
  {
    assert [t][1..] == [];
  }

  // ----- What is left to do for a stack of open regions -----

  datatype Cost = Cost(nodes: int, work: int, roots: int)

  /** Cost of finishing every open region from the innermost out; None when some region is malformed. */
  ghost function Rest(raw: seq<Byte>, pos: nat, ends: seq<int>): (r: Option<Cost>)
    requires ValidStack(raw, pos, ends)
    ensures r.Some? ==> r.value.nodes >= 0 && r.value.work >= 0 && r.value.roots >= 0
    decreases |ends|
  {
    var depth := |ends| - 1;
    StackBelow(raw, pos, ends);
    match Decode(raw, pos, ends[depth], depth)
    case None => None
    case Some(ts) =>
      if depth == 0 then Some(Cost(Nodes(ts), Work(ts), |ts|))
      else
        match Rest(raw, ends[depth], ends[..depth])
        case None => None
        case Some(c) => Some(Cost(Nodes(ts) + c.nodes, Work(ts) + c.work, c.roots))
  }

  ghost predicate ValidStack(raw: seq<Byte>, pos: nat, ends: seq<int>) {
    && 1 <= |ends|
    && pos <= ends[|ends| - 1]
    && ends[0] <= |raw|
    && forall i :: 0 < i < |ends| ==> ends[i] <= ends[i - 1]
  }

  lemma {:induction false} StackBelow(raw: seq<Byte>, pos: nat, ends: seq<int>)
    requires ValidStack(raw, pos, ends)
    ensures |ends| >= 1 && pos <= ends[|ends| - 1] <= |raw|
    decreases |ends|
  {
    if |ends| <= 1 {
    } else {
      StackBelow(raw, pos, ends[..|ends| - 1]);
    }
  }

  /** The counters plus what is left to do. */
  ghost function Plus(c: Option<Cost>, nodes: int, work: int, roots: int): Option<Cost> {
    match c
    case None => None
    case Some(c) => Some(Cost(nodes + c.nodes, work + c.work, roots + c.roots))
  }

  lemma RestMalformed(raw: seq<Byte>, pos: nat, ends: seq<int>)
    requires ValidStack(raw, pos, ends) && pos < ends[|ends| - 1] <= |raw|
    requires |ends| > MAX_DEPTH || ReadHeader(raw, pos, ends[|ends| - 1]).None?
    ensures Rest(raw, pos, ends) == None
  {
  }

  lemma DecodeStep(raw: seq<Byte>, pos: nat, end: nat, depth: nat, h: Header)
    requires pos < end <= |raw| && depth < MAX_DEPTH && ReadHeader(raw, pos, end) == Some(h)
    ensures var stop := StopOf(raw, pos, end);
            var inner := Decode(raw, pos + h.size, stop, depth + 1);
            var tail := Decode(raw, stop, end, depth);
            var whole := Decode(raw, pos, end, depth);
            (whole.None? <==> tail.None? || (ConstructedBit(h.tag) && inner.None?)) &&
            (whole.Some? ==>
               && Nodes(whole.value) ==
                       1 + (if ConstructedBit(h.tag) then Nodes(inner.value) else 0) + Nodes(tail.value)
               && Work(whole.value) ==
                       stop - pos + (if ConstructedBit(h.tag) then Work(inner.value) else 0) + Work(tail.value)
               && |whole.value| == 1 + |tail.value|)
  {
    hide ReadHeader, EncodeLength, BigEndian, Encode;
    var stop := StopOf(raw, pos, end);
    var whole, tail := Decode(raw, pos, end, depth), Decode(raw, stop, end, depth);
    if whole.Some? {
      assert whole.value[1..] == tail.value;
      if ConstructedBit(h.tag) {
        DecodeSound(raw, pos + h.size, stop, depth + 1);
      }
      EncodeFirst(raw, pos, end, whole.value[0]);
    }
  }

  lemma DecodeNothing(raw: seq<Byte>, pos: nat, depth: nat)
    requires pos <= |raw|
    ensures Decode(raw, pos, pos, depth) == Some([]) && Nodes([]) == 0 && Work([]) == 0
  {
  }

  /** Reading the header of an object without content to enter moves its cost to the counters. */
  lemma RestSkip(raw: seq<Byte>, pos: nat, ends: seq<int>, h: Header)
    requires ValidStack(raw, pos, ends) && pos < ends[|ends| - 1] <= |raw| && |ends| <= MAX_DEPTH
    requires ReadHeader(raw, pos, ends[|ends| - 1]) == Some(h) && !(ConstructedBit(h.tag) && h.length > 0)
    ensures var stop := pos + h.size + h.length;
            stop == StopOf(raw, pos, ends[|ends| - 1]) && ValidStack(raw, stop, ends) &&
            Rest(raw, pos, ends) == Plus(Rest(raw, stop, ends), 1, stop - pos, if |ends| == 1 then 1 else 0)
  {
    hide ReadHeader, Decode, Nodes, Work;
    DecodeStep(raw, pos, ends[|ends| - 1], |ends| - 1, h);
    if ConstructedBit(h.tag) {
      DecodeNothing(raw, pos + h.size, |ends|);
    }
  }

  /** The same for an object that is entered: its content becomes the innermost open region. */
  lemma RestPush(raw: seq<Byte>, pos: nat, ends: seq<int>, h: Header)
    requires ValidStack(raw, pos, ends) && pos < ends[|ends| - 1] <= |raw| && |ends| <= MAX_DEPTH
    requires ReadHeader(raw, pos, ends[|ends| - 1]) == Some(h) && ConstructedBit(h.tag)
    ensures var stop := pos + h.size + h.length;
            stop == StopOf(raw, pos, ends[|ends| - 1]) && ValidStack(raw, pos + h.size, ends + [stop]) &&
            Rest(raw, pos, ends) ==
            Plus(Rest(raw, pos + h.size, ends + [stop]), 1, stop - pos, if |ends| == 1 then 1 else 0)
  {
    hide ReadHeader, Decode, Nodes, Work;
    var stop := StopOf(raw, pos, ends[|ends| - 1]);
    var pushed := ends + [stop];
    DecodeStep(raw, pos, ends[|ends| - 1], |ends| - 1, h);
    assert pushed[|ends|] == stop && pushed[..|ends|] == ends;
    assert ValidStack(raw, pos + h.size, pushed);
  }

  /** Either way, an object just read is part of what is left. */
  lemma RestCharge(raw: seq<Byte>, pos: nat, ends: seq<int>, h: Header)
    requires ValidStack(raw, pos, ends) && pos < ends[|ends| - 1] <= |raw| && |ends| <= MAX_DEPTH
    requires ReadHeader(raw, pos, ends[|ends| - 1]) == Some(h)
    ensures var c := Rest(raw, pos, ends);
            c.Some? ==> c.value.nodes >= 1 && c.value.work >= h.size + h.length
  {
    hide ReadHeader, Rest;
    if ConstructedBit(h.tag) {
      RestPush(raw, pos, ends, h);
    } else {
      RestSkip(raw, pos, ends, h);
    }
  }

  lemma RestNonempty(raw: seq<Byte>, pos: nat, ends: seq<int>)
    requires ValidStack(raw, pos, ends) && pos < ends[0] && |ends| == 1
    ensures Rest(raw, pos, ends).Some? ==> Rest(raw, pos, ends).value.roots >= 1
  {
    hide ReadHeader;
  }

  lemma RestAtEnd(raw: seq<Byte>, pos: nat, ends: seq<int>)
    requires ValidStack(raw, pos, ends) && pos == ends[|ends| - 1]
    ensures |ends| > 1 ==> ValidStack(raw, pos, ends[..|ends| - 1])
    ensures Rest(raw, pos, ends) ==
            if |ends| == 1 then Some(Cost(0, 0, 0)) else Rest(raw, pos, ends[..|ends| - 1])
  {
  }

  lemma AcceptableIffRest(raw: seq<Byte>)
    requires 0 < |raw| <= MAX_MESSAGE
    ensures ValidStack(raw, 0, [|raw|])
    ensures Acceptable(raw) <==>
            var c := Rest(raw, 0, [|raw|]);
            c.Some? && c.value.roots == 1 && c.value.nodes <= MAX_NODES && c.value.work <= MAX_WORK
  {
    AcceptableIffDecoded(raw);
  }

  // ----- The loop -----

  lemma PlusPlus(c: Option<Cost>, nodes: int, work: int, roots: int, more: int, much: int, top: int)
    ensures Plus(Plus(c, more, much, top), nodes, work, roots) == Plus(c, nodes + more, work + much, roots + top)
    ensures Plus(c, 0, 0, 0) == c
  {
  }

  /** What the counters and the remaining cost say about the whole message. */
  lemma Verdict(raw: seq<Byte>, c: Option<Cost>, nodes: int, work: int, roots: int)
    requires 0 < |raw| <= MAX_MESSAGE && Rest(raw, 0, [|raw|]) == Plus(c, nodes, work, roots)
    ensures Framed(raw) <==>
              c.Some? && c.value.roots + roots == 1
              && c.value.nodes + nodes <= MAX_NODES && c.value.work + work <= MAX_WORK
  {
    hide Rest, Framed, Acceptable;
    AcceptableIffRest(raw);
    FirstOctetDecides(raw);
  }

  /** The identifier and length octets of one object: the straight-line part of a round. */
  method ParseHeader(raw: seq<Byte>, start: nat, end: nat) returns (h: Option<Header>)
    requires start <= end <= |raw|
    ensures h == ReadHeader(raw, start, end)
  {
    var pos := start;
    if end - pos < 2 {
      return None;
    }
    var tag := raw[pos];
    pos := pos + 1;
    IdentifierBits(tag);
    if tag == 0 || (tag as bv8) & 0x1f == 0x1f {
      return None;
    }
    var lengthByte := raw[pos];
    pos := pos + 1;
    var length: nat := lengthByte;
    if lengthByte >= 128 {
      var n := lengthByte - 128;
      if n == 0 || n > 3 || n > end - pos || raw[pos] == 0 {
        return None;
      }
      length := 0;
      var i := 0;
      while i < n
        invariant 0 <= i <= n && pos == start + 2 + i
        invariant length == BigEndianValue(raw[start + 2..pos])
      {
        assert raw[start + 2..pos + 1][..i] == raw[start + 2..pos];
        length := length * 256 + raw[pos];
        pos := pos + 1;
        i := i + 1;
      }
      if length < 128 {
        return None;
      }
    }
    if length > end - pos {
      return None;
    }
    return Some(Header(tag, length, pos - start));
  }

  /**
    The preflight.  It accepts exactly the acceptable messages, never reads outside
    the message or its stack of 33 ends, and stops within 2 * MAX_NODES + 1 rounds.
    */
  method BoundedSCEPASN1(raw: seq<Byte>) returns (ok: bool, ghost rounds: nat)
    ensures ok <==> Acceptable(raw)
    ensures ok <==> Framed(raw)
    ensures rounds <= 2 * MAX_NODES + 1
  {
    hide Rest, Decode, Acceptable, BigEndian, EncodeLength, StopOf, ValidStack, ReadHeader, Framed, ConstructedBit;
    hide Plus;
    rounds := 0;
    if |raw| == 0 || |raw| > MAX_MESSAGE {
      FirstOctetDecides(raw);
      SizeLimit(raw);
      return false, rounds;
    }
    FirstOctetDecides(raw);
    AcceptableIffRest(raw);
    PlusPlus(Rest(raw, 0, [|raw|]), 0, 0, 0, 0, 0, 0);
    var ends := new int[MAX_DEPTH + 1];
    ends[0] := |raw|;
    var pos, depth, nodes, work, roots := 0, 0, 0, 0, 0;
    ghost var stack := [ends[0]];
    assert stack == [|raw|];
    while true
      invariant 0 <= depth <= MAX_DEPTH && 0 <= pos
      invariant stack == ends[..depth + 1] && stack[0] == |raw|
      invariant ValidStack(raw, pos, stack)
      invariant 0 <= nodes <= MAX_NODES && 0 <= work <= MAX_WORK
      invariant roots == if depth == 0 && pos == 0 then 0 else 1
      invariant Rest(raw, 0, [|raw|]) == Plus(Rest(raw, pos, stack), nodes, work, roots)
      invariant rounds + depth <= 2 * nodes
      decreases 2 * (|raw| - pos) + depth
    {
      rounds := rounds + 1;
      StackBelow(raw, pos, stack);
      Verdict(raw, Rest(raw, pos, stack), nodes, work, roots);
      assert stack[depth] == ends[depth];
      if pos == ends[depth] {
        RestAtEnd(raw, pos, stack);
        if depth == 0 {
          return true, rounds;
        }
        depth := depth - 1;
        stack := stack[..depth + 1];
        continue;
      }
      if depth == 0 {
        roots := roots + 1;
        if roots != 1 {
          RestNonempty(raw, pos, stack);
          return false, rounds;
        }
      }
      if depth >= MAX_DEPTH {
        RestMalformed(raw, pos, stack);
        return false, rounds;
      }
      var h := ParseHeader(raw, pos, ends[depth]);
      if h.None? {
        RestMalformed(raw, pos, stack);
        return false, rounds;
      }
      var start := pos;
      ghost var before := Cost(nodes, work, if depth == 0 then roots - 1 else roots);
      pos := pos + h.value.size;
      var end := pos + h.value.length;
      nodes := nodes + 1;
      work := work + (end - start);
      if nodes > MAX_NODES || work > MAX_WORK {
        RestCharge(raw, start, stack, h.value);
        return false, rounds;
      }
      if ConstructedBit(h.value.tag) && h.value.length > 0 {
        RestPush(raw, start, stack, h.value);
        depth := depth + 1;
        ends[depth] := end;
        stack := stack + [end];
      } else {
        RestSkip(raw, start, stack, h.value);
        pos := end;
      }
      PlusPlus(Rest(raw, pos, stack), before.nodes, before.work, before.roots, 1, end - start, roots - before.roots);
    }
  }
}
