/**
  The normalizers of a shared challenge's address ranges and DNS suffixes.  What they
  store is a fixed point of themselves, which a restore later demands of the journal.
  */
module ScepNormal {
  import opened ScepNames
  import opened Strings
  import opened Wrappers

  const MAX_RANGES: int := 64
  const MAX_SUFFIXES: int := 16

  // ----- Ranges -----

  /** An IPv6 address that embeds an IPv4 one: bits 32 to 127 are 0xffff. */
  predicate Is4In6(a: Addr) {
    a.V6? && Shifted(a.bits6, 32) == 0xffff
  }

  /** Those are the addresses of ::ffff:0:0/96. */
  lemma MappedAddresses(a: Addr)
    ensures Is4In6(a) <==> a.V6? && 0xffff_0000_0000 <= a.bits6 < 0x1_0000_0000_0000
  {
    if a.V6? {
      ShiftedIsBlock(a.bits6, 32);
      Pow2Of32();
      var m := Shifted(a.bits6, 32);
      assert Block(m, 32) == m * 0x1_0000_0000;
    }
  }

  lemma Pow2Of32()
    ensures Pow2(32) == 0x1_0000_0000
  {
    assert Pow2(8) == 256;
    assert Pow2(16) == 0x1_0000;
    assert Pow2(24) == 0x100_0000;
  }

  predicate RangeOk(p: Prefix) {
    ValidPrefix(p) && !Is4In6(p.addr)
  }

  predicate RangesOk(ranges: seq<Prefix>) {
    forall i :: 0 <= i < |ranges| ==> RangeOk(ranges[i])
  }

  function MaskAll(ranges: seq<Prefix>): seq<Prefix>
    requires RangesOk(ranges)
  {
    seq(|ranges|, i requires 0 <= i < |ranges| => Masked(ranges[i]))
  }

  method NormalizeRanges(ranges: seq<Prefix>) returns (res: Option<seq<Prefix>>)
    ensures res.Some? <==> 1 <= |ranges| <= 64 && RangesOk(ranges)
    ensures res.Some? ==> res.value == MaskAll(ranges)
  {
    if |ranges| == 0 || |ranges| > MAX_RANGES {
      return None;
    }
    var out: seq<Prefix> := [];
    for i := 0 to |ranges|
      invariant |out| == i && forall k :: 0 <= k < i ==> RangeOk(ranges[k]) && out[k] == Masked(ranges[k])
    {
      if !RangeOk(ranges[i]) {
        return None;
      }
      out := out + [Masked(ranges[i])];
    }
    return Some(out);
  }

  /** Clearing low bits leaves the bits above them alone. */
  lemma {:induction false} ClearedBelow(n: nat, k: nat, j: nat)
    requires k <= j
    ensures Shifted(Cleared(n, k), j) == Shifted(n, j)
    decreases k
  {
    if k == 0 {
    } else {
      ClearedBelow(n / 2, k - 1, j - 1);
    }
  }

  lemma {:induction false} ClearedAbove(n: nat, k: nat, j: nat)
    requires k > j
    ensures Shifted(Cleared(n, k), j) % 2 == 0
    decreases j
  {
    var m := Cleared(n / 2, k - 1);
    assert Cleared(n, k) == 2 * m && 2 * m / 2 == m && 2 * m % 2 == 0;
    if j == 0 {
    } else {
      ClearedAbove(n / 2, k - 1, j - 1);
    }
  }

  /** Masking never makes an accepted range an embedded IPv4 one. */
  lemma MaskedRangeOk(p: Prefix)
    requires RangeOk(p)
    ensures RangeOk(Masked(p)) && Masked(Masked(p)) == Masked(p)
  {
    MaskingIsHarmless(p, p.addr);
    if p.addr.V6? {
      var k := 128 - p.length;
      if k <= 32 {
        ClearedBelow(p.addr.bits6, k, 32);
      } else {
        ClearedAbove(p.addr.bits6, k, 32);
      }
    }
  }

  /** Normalized ranges are accepted again, unchanged, and admit the same addresses. */
  lemma RangesAreFixed(ranges: seq<Prefix>, a: Addr)
    requires RangesOk(ranges)
    ensures var out := MaskAll(ranges);
            && RangesOk(out) && MaskAll(out) == out
            && (InRanges(out, a) <==> InRanges(ranges, a))
  {
    var out := MaskAll(ranges);
    forall i | 0 <= i < |ranges|
      ensures RangeOk(out[i]) && Masked(out[i]) == out[i] && Contains(out[i], a) == Contains(ranges[i], a)
    {
      MaskedRangeOk(ranges[i]);
      MaskingIsHarmless(ranges[i], a);
    }
  }

  // ----- Suffixes -----

  predicate Lower(s: string) {
    forall c :: c in s ==> !('A' <= c <= 'Z')
  }

  /** What is used of strings.ToLower after strings.TrimSpace. */
  ghost predicate Lowers(norm: string -> string) {
    && (forall s :: Lower(norm(s)))
    && (forall s :: ScepDnsName(s) && Lower(s) ==> norm(s) == s)
  }

  function TrimDot(s: string): string {
    if s != "" && s[|s| - 1] == '.' then s[..|s| - 1] else s
  }

  /** One entry: None is an error, Some("") an empty line. */
  function NormalSuffix(raw: string, norm: string -> string): Option<string> {
    var s := norm(raw);
    if s == "" then Some("")
    else if s[0] == '.' || '*' in s || !Dotted(TrimDot(s)) then None
    else Some(TrimDot(s))
  }

  /** An entry stands for the dotted name that it is, or is but for one dot at the end. */
  lemma SuffixForms(raw: string, norm: string -> string, x: string)
    requires x != ""
    ensures NormalSuffix(raw, norm) == Some(x) <==> Dotted(x) && (norm(raw) == x || norm(raw) == x + ".")
  {
    var s := norm(raw);
    if Dotted(x) {
      var v := Split(x, '.');
      assert v[0] in v && v[|v| - 1] in v;
      if x[|x| - 1] == '.' {
        LastPartEmpty(x);
      }
      if '*' in x {
        SplitChars(x, '.', '*');
      }
    }
    if s == x + "." {
      assert TrimDot(s) == x;
    }
    if s != "" && s[|s| - 1] == '.' {
      assert s == TrimDot(s) + ".";
    }
  }

  function Suffixes(input: seq<string>, norm: string -> string): Option<seq<string>> {
    if input == [] then Some([])
    else
      match (Suffixes(input[..|input| - 1], norm), NormalSuffix(input[|input| - 1], norm))
      case (Some(front), Some(s)) => Some(if s == "" then front else AddOnce(front, s))
      case (_, _) => None
  }

  /** The normal forms of all entries that are not empty lines. */
  function Normals(input: seq<string>, norm: string -> string): set<string> {
    set x | x in input && NormalSuffix(x, norm).Some? && NormalSuffix(x, norm).value != "" ::
          NormalSuffix(x, norm).value
  }

  /**
    Refused exactly for a bad entry or too many suffixes; otherwise each normal form once, in the order
    of the entries.
    */
  method NormalizeSuffixes(input: seq<string>, norm: string -> string) returns (res: Option<seq<string>>)
    ensures res.None? <==>
            || (exists x :: x in input && NormalSuffix(x, norm).None?)
            || |Normals(input, norm)| > 16
    ensures res.Some? ==> NameSet(res.value) == Normals(input, norm) && NoRepeats(res.value)
    ensures res.Some? ==> Suffixes(input, norm) == res
  {
    var out: seq<string> := [];
    SuffixesAreNormals(input, norm);
    for i := 0 to |input|
      invariant Suffixes(input[..i], norm) == Some(out)
    {
      assert input[..i + 1][..i] == input[..i] && input[i] in input;
      var s := NormalSuffix(input[i], norm);
      if s.None? {
        return None;
      }
      if s.value != "" {
        out := AddOnce(out, s.value);
      }
    }
    assert input[..|input|] == input;
    NamesCounted(out);
    return if |out| > MAX_SUFFIXES then None else Some(out);
  }

  lemma {:induction false} SuffixesAreNormals(input: seq<string>, norm: string -> string)
    ensures Suffixes(input, norm).None? <==> exists x :: x in input && NormalSuffix(x, norm).None?
    ensures Suffixes(input, norm).Some? ==>
              NameSet(Suffixes(input, norm).value) == Normals(input, norm) && NoRepeats(Suffixes(input, norm).value)
  {
    hide NormalSuffix;
    if input == [] {
    } else {
      var front, last := input[..|input| - 1], input[|input| - 1];
      SuffixesAreNormals(front, norm);
      assert input == front + [last];
    }
  }

  lemma {:induction false} LastPartEmpty(s: string)
    requires s != "" && s[|s| - 1] == '.'
    ensures var v := Split(s, '.'); v[|v| - 1] == ""
  {
    if |s| <= 1 {
    } else {
      LastPartEmpty(s[1..]);
    }
  }

  /** A valid dotted lower-case name is its own normal form. */
  lemma NameIsNormal(s: string, norm: string -> string)
    requires Lowers(norm) && Dotted(s) && Lower(s)
    ensures NormalSuffix(s, norm) == Some(s)
  {
    var v := Split(s, '.');
    assert v[0] in v && v[|v| - 1] in v;
    if s[|s| - 1] == '.' {
      LastPartEmpty(s);
    }
    if '*' in s {
      SplitChars(s, '.', '*');
    }
  }

  lemma {:induction false} SuffixesAreNormal(input: seq<string>, norm: string -> string)
    requires Lowers(norm) && Suffixes(input, norm).Some?
    ensures var out := Suffixes(input, norm).value;
            NoRepeats(out) && forall s :: s in out ==> Dotted(s) && Lower(s)
  {
    if input == [] {
    } else {
      SuffixesAreNormal(input[..|input| - 1], norm);
      var s := norm(input[|input| - 1]);
      assert Lower(s) && forall c :: c in TrimDot(s) ==> c in s;
    }
  }

  lemma {:induction false} NormalAreFixed(out: seq<string>, norm: string -> string)
    requires Lowers(norm) && NoRepeats(out) && forall s :: s in out ==> Dotted(s) && Lower(s)
    ensures Suffixes(out, norm) == Some(out)
  {
    if out == [] {
    } else {
      var front, last := out[..|out| - 1], out[|out| - 1];
      NormalAreFixed(front, norm);
      NameIsNormal(last, norm);
      assert out == front + [last] && last !in front;
    }
  }

  /** Every stored suffix has two labels, is lower-case and stands once; normalizing again changes nothing. */
  lemma SuffixesAreFixed(input: seq<string>, norm: string -> string)
    requires Lowers(norm) && Suffixes(input, norm).Some?
    ensures var out := Suffixes(input, norm).value;
            Suffixes(out, norm) == Some(out) && NoRepeats(out) && forall s :: s in out ==> Dotted(s) && Lower(s)
  {
    SuffixesAreNormal(input, norm);
    NormalAreFixed(Suffixes(input, norm).value, norm);
  }
}
