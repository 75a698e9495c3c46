/** Splitting strings at a separator and joining them again, as the string library does. */
module Strings {
  /** The parts of s between separators. */
  function Split(s: string, sep: char): (r: seq<string>)
    ensures r != []
  {
    if s == "" then [""]
    else
      var rest := Split(s[1..], sep);
      if s[0] == sep then [""] + rest else [[s[0]] + rest[0]] + rest[1..]
  }

  function Join(v: seq<string>, sep: char): string {
    if v == [] then ""
    else if |v| == 1 then v[0]
    else v[0] + [sep] + Join(v[1..], sep)
  }

  predicate HasSuffix(s: string, suffix: string) {
    |s| >= |suffix| && s[|s| - |suffix|..] == suffix
  }

  /** Splitting forgets nothing, so strings with equal parts are equal. */
  lemma {:induction false} JoinOfSplit(s: string, sep: char)
    ensures Join(Split(s, sep), sep) == s
  {
    if s == "" {
    } else {
      var rest := Split(s[1..], sep);
      JoinOfSplit(s[1..], sep);
      assert s == [s[0]] + s[1..];
      if s[0] == sep {
        assert Split(s, sep)[1..] == rest;
      } else {
        assert Split(s, sep)[1..] == rest[1..];
      }
    }
  }

  lemma {:induction false} JoinChars(v: seq<string>, sep: char, c: char)
    requires c in Join(v, sep)
    ensures c == sep || exists s :: s in v && c in s
  {
    if |v| > 1 {
      if c in v[0] {
        assert v[0] in v;
      } else if c != sep {
        JoinChars(v[1..], sep, c);
        var s :| s in v[1..] && c in s;
        assert s in v;
      }
    } else if |v| == 1 {
      assert v[0] in v;
    }
  }

  lemma {:induction false} JoinAt(v: seq<string>, k: nat, sep: char)
    requires 0 < k < |v|
    ensures Join(v, sep) == Join(v[..k], sep) + [sep] + Join(v[k..], sep)
  {
    var front := v[..k];
    if k == 1 {
      assert front == [v[0]];
    } else {
      JoinAt(v[1..], k - 1, sep);
      assert front[0] == v[0] && front[1..] == v[1..][..k - 1] && v[1..][k - 1..] == v[k..];
    }
  }

  /** The parts of suffix are the last parts of s. */
  ghost predicate PartsTail(s: string, suffix: string, sep: char) {
    var v, w := Split(s, sep), Split(suffix, sep);
    |w| <= |v| && v[|v| - |w|..] == w
  }

  /** A suffix after a separator is a tail of the parts, and nothing else is. */
  lemma SuffixIsTail(s: string, suffix: string, sep: char)
    ensures s == suffix || HasSuffix(s, [sep] + suffix) <==> PartsTail(s, suffix, sep)
  {
    var v, w := Split(s, sep), Split(suffix, sep);
    if HasSuffix(s, [sep] + suffix) {
      var front := s[..|s| - |suffix| - 1];
      assert s == front + [sep] + suffix;
      SplitAt(front, suffix, sep);
    }
    if PartsTail(s, suffix, sep) {
      JoinOfSplit(s, sep);
      JoinOfSplit(suffix, sep);
      if |v| == |w| {
        assert v == w;
      } else {
        JoinAt(v, |v| - |w|, sep);
      }
    }
  }

  lemma {:induction false} PartsHaveNoSeparator(s: string, sep: char)
    ensures forall p :: p in Split(s, sep) ==> sep !in p
  {
    if s == "" {
    } else {
      PartsHaveNoSeparator(s[1..], sep);
    }
  }

  lemma {:induction false} SplitsAtSeparator(s: string, sep: char)
    requires sep in s
    ensures |Split(s, sep)| >= 2
  {
    if s[0] != sep {
      assert s == [s[0]] + s[1..];
      SplitsAtSeparator(s[1..], sep);
    }
  }

  lemma {:induction false} SplitOfPlain(s: string, sep: char)
    requires sep !in s
    ensures Split(s, sep) == [s]
  {
    if s == "" {
    } else {
      SplitOfPlain(s[1..], sep);
      assert s == [s[0]] + s[1..];
    }
  }

  /** A separator separates, whatever stands on its two sides. */
  lemma {:induction false} SplitAt(a: string, b: string, sep: char)
    ensures Split(a + [sep] + b, sep) == Split(a, sep) + Split(b, sep)
  {
    var s := a + [sep] + b;
    if a == "" {
      assert s[1..] == b;
    } else {
      SplitAt(a[1..], b, sep);
      assert s[1..] == a[1..] + [sep] + b && s[0] == a[0];
      FirstPart(Split(a[1..], sep), Split(b, sep), a[0]);
    }
  }

  lemma FirstPart(x: seq<string>, y: seq<string>, c: char)
    requires x != []
    ensures [[c] + (x + y)[0]] + (x + y)[1..] == ([[c] + x[0]] + x[1..]) + y
    ensures [""] + (x + y) == ([""] + x) + y
  {
  }

  /** Every character other than the separator is in some part. */
  lemma {:induction false} SplitChars(s: string, sep: char, c: char)
    requires c in s && c != sep
    ensures exists p :: p in Split(s, sep) && c in p
  {
    var rest, whole := Split(s[1..], sep), Split(s, sep);
    if s[0] == c {
      assert whole[0] == [s[0]] + rest[0] && c in whole[0];
    } else {
      assert s == [s[0]] + s[1..];
      SplitChars(s[1..], sep, c);
      var p :| p in rest && c in p;
      var k :| 0 <= k < |rest| && rest[k] == p;
      if s[0] == sep {
        assert whole[k + 1] == p;
      } else if k == 0 {
        assert whole[0] == [s[0]] + p && c in whole[0];
      } else {
        assert whole[k] == p;
      }
    }
  }

  /** The parts of all strings of v, in order. */
  function Pieces(v: seq<string>, sep: char): seq<string> {
    if v == [] then [] else Split(v[0], sep) + Pieces(v[1..], sep)
  }

  /** What a joined string says is the pieces of its parts, and nothing more. */
  lemma {:induction false} SplitOfJoin(v: seq<string>, sep: char)
    requires v != []
    ensures Split(Join(v, sep), sep) == Pieces(v, sep)
  {
    if |v| == 1 {
      assert v[1..] == [];
    } else {
      SplitOfJoin(v[1..], sep);
      SplitAt(v[0], Join(v[1..], sep), sep);
    }
  }

  lemma {:induction false} PiecesOfPlain(v: seq<string>, sep: char)
    requires forall s :: s in v ==> sep !in s
    ensures Pieces(v, sep) == v
  {
    if v == [] {
    } else {
      SplitOfPlain(v[0], sep);
      PiecesOfPlain(v[1..], sep);
      assert v == [v[0]] + v[1..];
    }
  }

  /** Lists without empty strings join to the same string exactly when they have the same pieces. */
  lemma SameJoin(a: seq<string>, b: seq<string>, sep: char)
    requires "" !in a && "" !in b
    ensures Join(a, sep) == Join(b, sep) <==> Pieces(a, sep) == Pieces(b, sep)
  {
    if a == [] || b == [] {
      NonemptyJoin(a, sep);
      NonemptyJoin(b, sep);
    } else {
      SplitOfJoin(a, sep);
      SplitOfJoin(b, sep);
      JoinOfSplit(Join(a, sep), sep);
      JoinOfSplit(Join(b, sep), sep);
    }
  }

  lemma NonemptyJoin(v: seq<string>, sep: char)
    requires "" !in v
    ensures v == [] <==> Join(v, sep) == ""
    ensures v == [] <==> Pieces(v, sep) == []
  {
    if v != [] {
      assert v[0] in v;
    }
  }
}
