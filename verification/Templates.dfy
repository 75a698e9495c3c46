/**
  Definition templates: text with {{ fqdn }}, {{ name }} and {{ ip }} placeholders that
  are filled from a device.  The searching loop of the expander is proved against a
  character-by-character tokenizer.
  */
module Templates {
  import opened Wrappers

  datatype Token = Text(c: char) | Var(name: string)

  datatype TemplateError = Unmatched | Unclosed | Unknown(name: string)

  const VARIABLES: set<string> := {"fqdn", "name", "ip"}

  type Values = map<string, string>

  // ----- The reference: one character at a time -----

  predicate Space(c: char) {
    || c in {'\t', '\n', '\U{0B}', '\U{0C}', '\r', ' ', '\U{85}', '\U{A0}', '\U{1680}'}
    || '\U{2000}' <= c <= '\U{200A}'
    || c in {'\U{2028}', '\U{2029}', '\U{202F}', '\U{205F}', '\U{3000}'}
  }

  function Trim(s: string): string {
    if s == "" then ""
    else if Space(s[0]) then Trim(s[1..])
    else if Space(s[|s| - 1]) then Trim(s[..|s| - 1])
    else s
  }

  predicate PairAt(s: string, i: int, c: char) {
    0 <= i < |s| - 1 && s[i] == c && s[i + 1] == c
  }

  predicate HasPair(s: string, c: char) {
    exists i :: 0 <= i < |s| && PairAt(s, i, c)
  }

  /** The position of the first doubled c. */
  function FirstPair(s: string, c: char): (r: Option<nat>)
    ensures r.Some? ==> PairAt(s, r.value, c) && forall i :: 0 <= i < r.value ==> !PairAt(s, i, c)
    ensures r.None? ==> !HasPair(s, c)
  {
    if |s| < 2 then None
    else if s[0] == c && s[1] == c then Some(0)
    else
      var rest := FirstPair(s[1..], c);
      assert forall i :: 1 <= i ==> PairAt(s, i, c) == PairAt(s[1..], i - 1, c);
      if rest.None? then None else Some(rest.value + 1)
  }

  function Cons(t: Token, rest: Result<seq<Token>, TemplateError>): Result<seq<Token>, TemplateError> {
    match rest
    case Ok(ts) => Ok([t] + ts)
    case Err(e) => Err(e)
  }

  /** A placeholder opens with the first {{, closes with the first }} after it, and names a variable. */
  function Tokenize(s: string): (r: Result<seq<Token>, TemplateError>)
    decreases |s|
  {
    if s == "" then Ok([])
    else if PairAt(s, 0, '{') then
      var end := FirstPair(s[2..], '}');
      if end.None? then Err(Unclosed)
      else
        var name := Trim(s[2..2 + end.value]);
        if HasPair(name, '{') then Err(Unclosed)
        else if name !in VARIABLES then Err(Unknown(name))
        else Cons(Var(name), Tokenize(s[2 + end.value + 2..]))
    else if PairAt(s, 0, '}') then Err(Unmatched)
    else Cons(Text(s[0]), Tokenize(s[1..]))
  }

  function Value(vals: Values, name: string): string {
    if name in vals then vals[name] else ""
  }

  function Render(t: Token, vals: Values): string {
    if t.Text? then [t.c] else Value(vals, t.name)
  }

  /** Text is kept and values are inserted as they are, never scanned again. */
  function Substitute(ts: seq<Token>, vals: Values): string {
    if ts == [] then "" else Render(ts[0], vals) + Substitute(ts[1..], vals)
  }

  /** The first placeholder without a value, or "". */
  function FirstEmpty(ts: seq<Token>, vals: Values): string {
    if ts == [] then ""
    else if ts[0].Var? && Value(vals, ts[0].name) == "" then ts[0].name
    else FirstEmpty(ts[1..], vals)
  }

  datatype Expansion = Expansion(text: string, empty: string)

  function Expand(s: string, vals: Values): Result<Expansion, TemplateError> {
    match Tokenize(s)
    case Ok(ts) => Ok(Expansion(Substitute(ts, vals), FirstEmpty(ts, vals)))
    case Err(e) => Err(e)
  }

  // ----- The searching loop -----

  function Texts(s: string): seq<Token> {
    seq(|s|, i requires 0 <= i < |s| => Text(s[i]))
  }

  function Append(ts: seq<Token>, rest: Result<seq<Token>, TemplateError>): Result<seq<Token>, TemplateError> {
    match rest
    case Ok(us) => Ok(ts + us)
    case Err(e) => Err(e)
  }

  lemma {:induction false} PlainPrefix(s: string, n: nat)
    requires n <= |s| && forall i :: 0 <= i < n ==> !PairAt(s, i, '{') && !PairAt(s, i, '}')
    ensures Tokenize(s) == Append(Texts(s[..n]), Tokenize(s[n..]))
    decreases n
  {
    if n == 0 {
      assert s[0..] == s && Texts(s[..0]) == [];
      AppendNothing(Tokenize(s));
    } else {
      assert !PairAt(s, 0, '{') && !PairAt(s, 0, '}');
      forall i | 0 <= i < n - 1
        ensures !PairAt(s[1..], i, '{') && !PairAt(s[1..], i, '}')
      {
        assert !PairAt(s, i + 1, '{') && !PairAt(s, i + 1, '}');
      }
      PlainPrefix(s[1..], n - 1);
      assert s[1..][n - 1..] == s[n..] && s[1..][..n - 1] == s[1..n];
      assert Texts(s[..n]) == [Text(s[0])] + Texts(s[1..n]);
      ConsAppend(Text(s[0]), Texts(s[1..n]), Tokenize(s[n..]));
    }
  }

  lemma AppendNothing(rest: Result<seq<Token>, TemplateError>)
    ensures Append([], rest) == rest
  {
    if rest.Ok? {
      assert [] + rest.value == rest.value;
    }
  }

  lemma ConsAppend(t: Token, ts: seq<Token>, rest: Result<seq<Token>, TemplateError>)
    ensures Cons(t, Append(ts, rest)) == Append([t] + ts, rest)
  {
    if rest.Ok? {
      assert [t] + (ts + rest.value) == [t] + ts + rest.value;
    }
  }

  lemma AppendAppend(a: seq<Token>, b: seq<Token>, rest: Result<seq<Token>, TemplateError>)
    ensures Append(a, Append(b, rest)) == Append(a + b, rest)
  {
    if rest.Ok? {
      assert a + (b + rest.value) == a + b + rest.value;
    }
  }

  lemma {:induction false} SubstituteAppend(a: seq<Token>, b: seq<Token>, vals: Values)
    requires forall t :: t in a && t.Var? ==> t.name != ""
    ensures Substitute(a + b, vals) == Substitute(a, vals) + Substitute(b, vals)
    ensures FirstEmpty(a + b, vals) == if FirstEmpty(a, vals) != "" then FirstEmpty(a, vals) else FirstEmpty(b, vals)
  {
    hide Render;
    if a == [] {
      assert a + b == b;
    } else {
      assert (a + b)[1..] == a[1..] + b && a[0] in a;
      SubstituteAppend(a[1..], b, vals);
      Regroup(Render(a[0], vals), Substitute(a[1..], vals), Substitute(b, vals));
    }
  }

  lemma Regroup(x: string, y: string, z: string)
    ensures x + (y + z) == x + y + z
  {
  }

  lemma {:induction false} TextsRender(s: string, vals: Values)
    ensures Substitute(Texts(s), vals) == s && FirstEmpty(Texts(s), vals) == ""
  {
    if s == "" {
    } else {
      assert Texts(s)[1..] == Texts(s[1..]);
      TextsRender(s[1..], vals);
      assert s == [s[0]] + s[1..];
    }
  }

  ghost predicate Named(ts: seq<Token>) {
    forall t :: t in ts && t.Var? ==> t.name in VARIABLES
  }

  /** The loop's position: done tokens are rendered into b, the rest of the template is s. */
  ghost predicate Expanding(whole: string, s: string, done: seq<Token>, vals: Values, b: string, emptyVar: string) {
    && Named(done)
    && Tokenize(whole) == Append(done, Tokenize(s))
    && b == Substitute(done, vals) && emptyVar == FirstEmpty(done, vals)
  }

  lemma ExpandText(whole: string, s: string, done: seq<Token>, vals: Values, b: string, emptyVar: string, n: nat)
    requires Expanding(whole, s, done, vals, b, emptyVar)
    requires n <= |s| && forall i :: 0 <= i < n ==> !PairAt(s, i, '{') && !PairAt(s, i, '}')
    ensures Expanding(whole, s[n..], done + Texts(s[..n]), vals, b + s[..n], emptyVar)
  {
    hide Tokenize, Substitute, FirstEmpty;
    PlainPrefix(s, n);
    AppendAppend(done, Texts(s[..n]), Tokenize(s[n..]));
    NamesNotEmpty(done);
    SubstituteAppend(done, Texts(s[..n]), vals);
    TextsRender(s[..n], vals);
  }

  lemma NamesNotEmpty(ts: seq<Token>)
    requires Named(ts)
    ensures forall t :: t in ts && t.Var? ==> t.name != ""
  {
  }

  lemma ExpandVar(
    whole: string, s: string, done: seq<Token>, vals: Values, b: string, emptyVar: string, end: nat, name: string)
    requires Expanding(whole, s, done, vals, b, emptyVar)
    requires PairAt(s, 0, '{') && FirstPair(s[2..], '}') == Some(end) && name == Trim(s[2..2 + end])
    requires !HasPair(name, '{') && name in VARIABLES
    ensures Expanding(whole, s[2 + end + 2..], done + [Var(name)], vals, b + Value(vals, name),
                      if Value(vals, name) == "" && emptyVar == "" then name else emptyVar)
  {
    hide FirstPair, Trim, HasPair;
    var rest := Tokenize(s[2 + end + 2..]);
    assert Tokenize(s) == Cons(Var(name), rest) == Append([Var(name)], rest);
    AppendAppend(done, [Var(name)], rest);
    NamesNotEmpty(done);
    SubstituteAppend(done, [Var(name)], vals);
    assert [Var(name)][1..] == [];
    assert Substitute([Var(name)], vals) == Value(vals, name) + "";
  }

  lemma ExpandFails(whole: string, s: string, done: seq<Token>, vals: Values, b: string, emptyVar: string)
    requires Expanding(whole, s, done, vals, b, emptyVar) && Tokenize(s).Err?
    ensures Expand(whole, vals) == Err(Tokenize(s).error)
  {
  }

  lemma ExpandDone(whole: string, done: seq<Token>, vals: Values, b: string, emptyVar: string)
    requires Expanding(whole, "", done, vals, b, emptyVar)
    ensures Expand(whole, vals) == Ok(Expansion(b, emptyVar))
  {
    assert done + [] == done;
  }

  /** expandDefinitionTemplate. */
  method ExpandDefinitionTemplate(template: string, vals: Values) returns (res: Result<Expansion, TemplateError>)
    ensures res == Expand(template, vals)
  {
    hide Expanding, Expand, Tokenize, Trim, FirstPair, HasPair;
    var b, emptyVar, s := "", "", template;
    ghost var done: seq<Token> := [];
    ExpandStart(template, vals);
    while true
      invariant Expanding(template, s, done, vals, b, emptyVar)
      decreases |s|
    {
      var open, shut := FirstPair(s, '{'), FirstPair(s, '}');
      if open.None? && shut.None? {
        NoPairs(s);
        ExpandText(template, s, done, vals, b, emptyVar, |s|);
        assert s[|s|..] == "" && s[..|s|] == s;
        ExpandDone(template, done + Texts(s), vals, b + s, emptyVar);
        return Ok(Expansion(b + s, emptyVar));
      }
      if open.None? || (shut.Some? && shut.value < open.value) {
        PlainBefore(s, shut.value);
        ExpandText(template, s, done, vals, b, emptyVar, shut.value);
        StartsShut(s, shut.value);
        ExpandFails(template, s[shut.value..], done + Texts(s[..shut.value]), vals, b + s[..shut.value], emptyVar);
        return Err(Unmatched);
      }
      PlainBefore(s, open.value);
      ExpandText(template, s, done, vals, b, emptyVar, open.value);
      done, b, s := done + Texts(s[..open.value]), b + s[..open.value], s[open.value..];
      assert PairAt(s, 0, '{');
      var end := FirstPair(s[2..], '}');
      if end.None? {
        BadPlaceholder(s);
        ExpandFails(template, s, done, vals, b, emptyVar);
        return Err(Unclosed);
      }
      var name := Trim(s[2..2 + end.value]);
      var nested := FirstPair(name, '{');
      if nested.Some? || name !in VARIABLES {
        PairFound(name, '{');
        BadPlaceholder(s);
        ExpandFails(template, s, done, vals, b, emptyVar);
        return Err(if nested.Some? then Unclosed else Unknown(name));
      }
      var val := Value(vals, name);
      ExpandVar(template, s, done, vals, b, emptyVar, end.value, name);
      if val == "" && emptyVar == "" {
        emptyVar := name;
      }
      done, b, s := done + [Var(name)], b + val, s[2 + end.value + 2..];
    }
  }

  lemma ExpandStart(whole: string, vals: Values)
    ensures Expanding(whole, whole, [], vals, "", "")
  {
    AppendNothing(Tokenize(whole));
  }

  lemma PairFound(s: string, c: char)
    ensures FirstPair(s, c).Some? <==> HasPair(s, c)
  {
    hide FirstPair;
  }

  lemma NoPairs(s: string)
    requires FirstPair(s, '{').None? && FirstPair(s, '}').None?
    ensures forall i :: !PairAt(s, i, '{') && !PairAt(s, i, '}')
  {
    hide FirstPair;
  }

  lemma PlainBefore(s: string, n: nat)
    requires FirstPair(s, '{').None? || n <= FirstPair(s, '{').value
    requires FirstPair(s, '}').None? || n <= FirstPair(s, '}').value
    ensures forall i :: 0 <= i < n ==> !PairAt(s, i, '{') && !PairAt(s, i, '}')
  {
    hide FirstPair;
  }

  lemma StartsShut(s: string, n: nat)
    requires PairAt(s, n, '}')
    ensures Tokenize(s[n..]) == Err(Unmatched)
  {
    assert PairAt(s[n..], 0, '}');
  }

  lemma BadPlaceholder(s: string)
    requires PairAt(s, 0, '{')
    ensures FirstPair(s[2..], '}').None? ==> Tokenize(s) == Err(Unclosed)
    ensures FirstPair(s[2..], '}').Some? ==>
              var name := Trim(s[2..2 + FirstPair(s[2..], '}').value]);
              && (HasPair(name, '{') ==> Tokenize(s) == Err(Unclosed))
              && (!HasPair(name, '{') && name !in VARIABLES ==> Tokenize(s) == Err(Unknown(name)))
  {
    hide FirstPair, Trim, HasPair;
  }

  // ----- Definitions -----

  datatype Subject = Subject(cn: string, dns: seq<string>, ips: seq<string>)

  datatype SubjectError = BadTemplate(e: TemplateError) | NeedsValue(name: string) | EmptyName | BadIp(text: string)

  /** The rules that a template entry must meet when a definition is saved. */
  predicate EntryOk(san: string, valid: string -> bool) {
    Tokenize(san).Ok? && (HasPair(san, '{') || valid(san))
  }

  predicate Checked(cn: string, dns: seq<string>, ips: seq<string>, validDns: string -> bool, validIp: string -> bool) {
    && cn != "" && Tokenize(cn).Ok?
    && (forall s :: s in dns ==> EntryOk(s, validDns))
    && (forall s :: s in ips ==> EntryOk(s, validIp))
  }

  const SAMPLE: Values := map["fqdn" := "host.example.net", "name" := "host", "ip" := "192.0.2.1"]

  /** checkDefinitionTemplates: it expands sample values, but accepts by the template alone. */
  method CheckDefinitionTemplates(
    cn: string, dns: seq<string>, ips: seq<string>, validDns: string -> bool, validIp: string -> bool)
    returns (ok: bool)
    ensures ok <==> Checked(cn, dns, ips, validDns, validIp)
  {
    if cn == "" {
      return false;
    }
    var e := ExpandDefinitionTemplate(cn, SAMPLE);
    if e.Err? {
      return false;
    }
    ok := CheckEntries(dns, validDns);
    if ok {
      ok := CheckEntries(ips, validIp);
    }
  }

  method CheckEntries(sans: seq<string>, valid: string -> bool) returns (ok: bool)
    ensures ok <==> forall s :: s in sans ==> EntryOk(s, valid)
  {
    hide Tokenize, HasPair;
    for i := 0 to |sans|
      invariant forall s :: s in sans[..i] ==> EntryOk(s, valid)
    {
      assert sans[i] in sans;
      ExpandSucceeds(sans[i], SAMPLE);
      var e := ExpandDefinitionTemplate(sans[i], SAMPLE);
      if e.Err? {
        return false;
      }
      PairFound(sans[i], '{');
      if FirstPair(sans[i], '{').None? && !valid(sans[i]) {
        return false;
      }
    }
    return true;
  }

  lemma ExpandSucceeds(s: string, vals: Values)
    ensures Expand(s, vals).Ok? <==> Tokenize(s).Ok?
  {
    hide Tokenize;
  }

  /** A template that is not empty expands to nothing only through an empty value. */
  lemma ExpansionIsNotEmpty(ts: seq<Token>, vals: Values)
    requires ts != [] && Named(ts) && FirstEmpty(ts, vals) == ""
    ensures Substitute(ts, vals) != ""
  {
    assert ts[0] in ts;
    if ts[0].Text? {
      assert |Substitute(ts, vals)| == 1 + |Substitute(ts[1..], vals)|;
    } else {
      assert Value(vals, ts[0].name) != "";
    }
  }

  lemma {:induction false} TokensAreNamed(s: string)
    requires Tokenize(s).Ok?
    ensures Named(Tokenize(s).value) && (s != "" ==> Tokenize(s).value != [])
    decreases |s|
  {
    if s == "" {
    } else if PairAt(s, 0, '{') {
      var end := FirstPair(s[2..], '}').value;
      TokensAreNamed(s[2 + end + 2..]);
    } else {
      TokensAreNamed(s[1..]);
    }
  }

  /** A saved common name never expands to the empty string unless a placeholder is empty, for any device. */
  lemma SavedNameIsUsable(cn: string, vals: Values)
    requires cn != "" && Tokenize(cn).Ok?
    ensures Expand(cn, vals).Ok? && (Expand(cn, vals).value.empty == "" ==> Expand(cn, vals).value.text != "")
  {
    hide Tokenize;
    TokensAreNamed(cn);
    if FirstEmpty(Tokenize(cn).value, vals) == "" {
      ExpansionIsNotEmpty(Tokenize(cn).value, vals);
    }
  }

  /** DNS entries in order: expanded, without those that need an empty value, each text once. */
  function DnsOf(templates: seq<string>, vals: Values): seq<string> {
    if templates == [] then []
    else
      var front := DnsOf(templates[..|templates| - 1], vals);
      match Expand(templates[|templates| - 1], vals)
      case Err(_) => front
      case Ok(x) => if x.empty != "" || x.text in front then front else front + [x.text]
  }

  /** IP entries likewise, in canonical form. */
  function IpsOf(templates: seq<string>, vals: Values, parse: string -> Option<string>): seq<string> {
    if templates == [] then []
    else
      var front := IpsOf(templates[..|templates| - 1], vals, parse);
      match Expand(templates[|templates| - 1], vals)
      case Err(_) => front
      case Ok(x) =>
        if x.empty != "" || parse(x.text).None? || parse(x.text).value in front then front
        else front + [parse(x.text).value]
  }

  /** The text of an entry that needs no empty value. */
  function Given(t: string, vals: Values): (r: Option<string>)
    ensures forall x :: r == Some(x) <==> Expand(t, vals) == Ok(Expansion(x, ""))
  {
    match Expand(t, vals)
    case Ok(x) => if x.empty == "" then Some(x.text) else None
    case Err(_) => None
  }

  /** The address such a text is, in canonical form. */
  function GivenIp(t: string, vals: Values, parse: string -> Option<string>): Option<string> {
    match Given(t, vals)
    case Some(x) => parse(x)
    case None => None
  }

  /** The first entry that gives x, or the number of entries. */
  function First(ts: seq<string>, gives: string -> Option<string>, x: string): (k: nat)
    ensures k <= |ts| && (k < |ts| ==> gives(ts[k]) == Some(x)) && forall j :: 0 <= j < k ==> gives(ts[j]) != Some(x)
  {
    if ts == [] || gives(ts[0]) == Some(x) then 0 else 1 + First(ts[1..], gives, x)
  }

  /** out has exactly the values that the entries give, in the order in which each occurs first, so each once. */
  ghost predicate Gathers(out: seq<string>, ts: seq<string>, gives: string -> Option<string>) {
    && (forall x :: x in out <==> exists k :: 0 <= k < |ts| && gives(ts[k]) == Some(x))
    && (forall i, j :: 0 <= i < j < |out| ==> First(ts, gives, out[i]) < First(ts, gives, out[j]))
  }

  lemma FirstIs(ts: seq<string>, gives: string -> Option<string>, x: string, k: nat)
    requires k < |ts| && gives(ts[k]) == Some(x) && forall j :: 0 <= j < k ==> gives(ts[j]) != Some(x)
    ensures First(ts, gives, x) == k
  {
    var f := First(ts, gives, x);
  }

  lemma GathersOne(out: seq<string>, ts: seq<string>, t: string, gives: string -> Option<string>)
    requires Gathers(out, ts, gives)
    ensures Gathers(if gives(t).None? || gives(t).value in out then out else out + [gives(t).value], ts + [t], gives)
  {
    var more := if gives(t).None? || gives(t).value in out then out else out + [gives(t).value];
    var all := ts + [t];
    forall x
      ensures x in more <==> exists k :: 0 <= k < |all| && gives(all[k]) == Some(x)
    {
      if k :| 0 <= k < |all| && gives(all[k]) == Some(x) && x !in out {
        assert k == |ts|;
      }
      if x in out {
        var k :| 0 <= k < |ts| && gives(ts[k]) == Some(x);
        assert all[k] == ts[k];
      } else if x in more {
        assert gives(all[|ts|]) == Some(x);
      }
    }
    forall i | 0 <= i < |more|
      ensures First(all, gives, more[i]) == if i < |out| then First(ts, gives, more[i]) else |ts|
    {
      if i < |out| {
        assert more[i] in out;
        var f := First(ts, gives, more[i]);
        FirstIs(all, gives, more[i], f);
      } else {
        FirstIs(all, gives, more[i], |ts|);
      }
    }
    forall i, j | 0 <= i < j < |more|
      ensures First(all, gives, more[i]) < First(all, gives, more[j])
    {
      assert more[i] in out;
    }
  }

  lemma {:induction false} DnsGathers(ts: seq<string>, vals: Values)
    ensures Gathers(DnsOf(ts, vals), ts, t => Given(t, vals))
  {
    hide Expand, Gathers;
    if ts == [] {
      NothingGathers(t => Given(t, vals));
    } else {
      var front, last := ts[..|ts| - 1], ts[|ts| - 1];
      DnsGathers(front, vals);
      GathersOne(DnsOf(front, vals), front, last, t => Given(t, vals));
      assert ts == front + [last];
    }
  }

  lemma {:induction false} IpsGather(ts: seq<string>, vals: Values, parse: string -> Option<string>)
    ensures Gathers(IpsOf(ts, vals, parse), ts, t => GivenIp(t, vals, parse))
  {
    hide Expand, Gathers;
    if ts == [] {
      NothingGathers(t => GivenIp(t, vals, parse));
    } else {
      var front, last := ts[..|ts| - 1], ts[|ts| - 1];
      IpsGather(front, vals, parse);
      GathersOne(IpsOf(front, vals, parse), front, last, t => GivenIp(t, vals, parse));
      assert ts == front + [last];
    }
  }

  lemma NothingGathers(gives: string -> Option<string>)
    ensures Gathers([], [], gives)
  {
  }

  /** An IP entry that is left out for an empty value, or is an address. */
  predicate GivesIp(t: string, vals: Values, parse: string -> Option<string>) {
    Expand(t, vals).Ok? && (Expand(t, vals).value.empty != "" || parse(Expand(t, vals).value.text).Some?)
  }

  /**
    definitionSubject for device values; parse is net.ParseIP, giving the canonical text.
    For a definition that passed the save-time check, only an empty value the common name
    needs, or an IP entry that is no address for this device, is an error.
    */
  method DefinitionSubject(
    cn: string, dns: seq<string>, ips: seq<string>, vals: Values, parse: string -> Option<string>)
    returns (res: Result<Subject, SubjectError>)
    ensures res.Ok? ==>
              && Expand(cn, vals) == Ok(Expansion(res.value.cn, "")) && res.value.cn != ""
              && res.value.dns == DnsOf(dns, vals) && res.value.ips == IpsOf(ips, vals, parse)
              && Gathers(res.value.dns, dns, t => Given(t, vals))
              && Gathers(res.value.ips, ips, t => GivenIp(t, vals, parse))
              && (forall t :: t in ips ==> GivesIp(t, vals, parse))
    ensures forall validDns, validIp :: Checked(cn, dns, ips, validDns, validIp) && res.Err? ==>
              || (res.error.NeedsValue? && Expand(cn, vals).value.empty == res.error.name != "")
              || (&& res.error.BadIp? && parse(res.error.text).None?
                  && exists t :: t in ips && Expand(t, vals) == Ok(Expansion(res.error.text, "")))
  {
    hide Expand, Tokenize, Gathers;
    CheckedExpands(cn, dns, ips, vals);
    DnsGathers(dns, vals);
    IpsGather(ips, vals, parse);
    var e := ExpandDefinitionTemplate(cn, vals);
    if e.Err? {
      return Err(BadTemplate(e.error));
    }
    if e.value.empty != "" {
      return Err(NeedsValue(e.value.empty));
    }
    if e.value.text == "" {
      return Err(EmptyName);
    }
    var dnsOut: seq<string> := [];
    for i := 0 to |dns|
      invariant dnsOut == DnsOf(dns[..i], vals)
    {
      assert dns[..i + 1][..i] == dns[..i] && dns[i] in dns;
      var x := ExpandDefinitionTemplate(dns[i], vals);
      if x.Err? {
        return Err(BadTemplate(x.error));
      }
      if x.value.empty == "" && x.value.text !in dnsOut {
        dnsOut := dnsOut + [x.value.text];
      }
    }
    assert dns[..|dns|] == dns;
    var ipsOut: Result<seq<string>, SubjectError>;
    ipsOut := FillIps(ips, vals, parse);
    if ipsOut.Err? {
      return Err(ipsOut.error);
    }
    return Ok(Subject(e.value.text, dnsOut, ipsOut.value));
  }

  method FillIps(
    ips: seq<string>, vals: Values, parse: string -> Option<string>) returns (res: Result<seq<string>, SubjectError>)
    ensures res.Ok? ==> res.value == IpsOf(ips, vals, parse)
    ensures res.Ok? ==>
              forall t :: t in ips ==> GivesIp(t, vals, parse)
    ensures res.Err? ==>
              || (res.error.BadTemplate? && exists t :: t in ips && Expand(t, vals).Err?)
              || (&& res.error.BadIp? && parse(res.error.text).None?
                  && exists t :: t in ips && Expand(t, vals) == Ok(Expansion(res.error.text, "")))
  {
    hide Expand;
    var out: seq<string> := [];
    for i := 0 to |ips|
      invariant out == IpsOf(ips[..i], vals, parse)
      invariant forall t :: t in ips[..i] ==> GivesIp(t, vals, parse)
    {
      assert ips[..i + 1][..i] == ips[..i] && ips[i] in ips;
      var x := ExpandDefinitionTemplate(ips[i], vals);
      if x.Err? {
        return Err(BadTemplate(x.error));
      }
      if x.value.empty == "" {
        if parse(x.value.text).None? {
          return Err(BadIp(x.value.text));
        }
        if parse(x.value.text).value !in out {
          out := out + [parse(x.value.text).value];
        }
      }
    }
    assert ips[..|ips|] == ips;
    return Ok(out);
  }

  lemma CheckedExpands(cn: string, dns: seq<string>, ips: seq<string>, vals: Values)
    ensures forall validDns, validIp :: Checked(cn, dns, ips, validDns, validIp) ==>
              && Expand(cn, vals).Ok? && (Expand(cn, vals).value.empty == "" ==> Expand(cn, vals).value.text != "")
              && (forall t :: t in dns ==> Expand(t, vals).Ok?) && (forall t :: t in ips ==> Expand(t, vals).Ok?)
  {
    hide Tokenize;
    if cn != "" && Tokenize(cn).Ok? {
      SavedNameIsUsable(cn, vals);
    }
  }

  // ----- Definitions from before templates -----

  class CertDefinition {
    var commonName: string
    var cnFromName: bool        // the legacy source of the common name
    var dnsSans: seq<string>
    var ipSans: seq<string>
    var extraSans: seq<string>  // legacy

    constructor (
      commonName: string, cnFromName: bool, dnsSans: seq<string>, ipSans: seq<string>, extraSans: seq<string>)
      ensures this.commonName == commonName && this.cnFromName == cnFromName
      ensures this.dnsSans == dnsSans && this.ipSans == ipSans && this.extraSans == extraSans
    {
      this.commonName, this.cnFromName := commonName, cnFromName;
      this.dnsSans, this.ipSans, this.extraSans := dnsSans, ipSans, extraSans;
    }

    /**
      migrateLegacyDefinition.  A migrated record passes the save-time check exactly when
      every legacy SAN is an address, a valid DNS name or a well-formed template.
      */
    method MigrateLegacyDefinition(parse: string -> Option<string>, validDns: string -> bool)
      requires forall s :: parse(s).Some? ==> '{' !in s && '}' !in s
      modifies this
      ensures old(commonName) != "" ==>
                && commonName == old(commonName) && dnsSans == old(dnsSans)
                && ipSans == old(ipSans) && extraSans == old(extraSans)
      ensures old(commonName) == "" ==>
                && commonName == Placeholder(if old(cnFromName) then "name" else "fqdn")
                && extraSans == [] && !cnFromName
                && dnsSans == [Placeholder("fqdn")] + Others(old(extraSans), parse)
                && ipSans == [Placeholder("ip")] + Addresses(old(extraSans), parse)
                && (Checked(commonName, dnsSans, ipSans, validDns, (s: string) => parse(s).Some?)
                    <==> forall x :: x in old(extraSans) ==> parse(x).Some? || EntryOk(x, validDns))
    {
      hide EntryOk, Checked, Placeholder, Others, Addresses;
      NoSans(parse);
      if commonName != "" {
        return;
      }
      var extra := extraSans;
      commonName := Placeholder(if cnFromName then "name" else "fqdn");
      dnsSans, ipSans := [Placeholder("fqdn")], [Placeholder("ip")];
      for i := 0 to |extra|
        invariant commonName == Placeholder(if old(cnFromName) then "name" else "fqdn")
        invariant dnsSans == [Placeholder("fqdn")] + Others(extra[..i], parse)
        invariant ipSans == [Placeholder("ip")] + Addresses(extra[..i], parse)
      {
        OneMoreSan(extra, i, parse);
        if parse(extra[i]).Some? {
          ipSans := ipSans + [extra[i]];
        } else {
          dnsSans := dnsSans + [extra[i]];
        }
      }
      assert extra[..|extra|] == extra;
      MigratedIsChecked(commonName, extra, parse, validDns);
      extraSans, cnFromName := [], false;
    }
  }

  function Placeholder(name: string): string {
    "{{ " + name + " }}"
  }

  function Addresses(sans: seq<string>, parse: string -> Option<string>): seq<string> {
    if sans == [] then []
    else
      var last := sans[|sans| - 1];
      Addresses(sans[..|sans| - 1], parse) + if parse(last).Some? then [last] else []
  }

  function Others(sans: seq<string>, parse: string -> Option<string>): seq<string> {
    if sans == [] then []
    else
      var last := sans[|sans| - 1];
      Others(sans[..|sans| - 1], parse) + if parse(last).Some? then [] else [last]
  }

  lemma NoSans(parse: string -> Option<string>)
    ensures Addresses([], parse) == [] && Others([], parse) == []
  {
  }

  lemma OneMoreSan(sans: seq<string>, i: nat, parse: string -> Option<string>)
    requires i < |sans|
    ensures Addresses(sans[..i + 1], parse) ==
            if parse(sans[i]).Some? then Addresses(sans[..i], parse) + [sans[i]] else Addresses(sans[..i], parse)
    ensures Others(sans[..i + 1], parse) ==
            if parse(sans[i]).Some? then Others(sans[..i], parse) else Others(sans[..i], parse) + [sans[i]]
  {
    assert sans[..i + 1][..i] == sans[..i];
  }

  lemma {:induction false} SplitMembers(sans: seq<string>, parse: string -> Option<string>, x: string)
    ensures x in Addresses(sans, parse) <==> x in sans && parse(x).Some?
    ensures x in Others(sans, parse) <==> x in sans && parse(x).None?
  {
    if sans == [] {
    } else {
      assert sans == sans[..|sans| - 1] + [sans[|sans| - 1]];
      SplitMembers(sans[..|sans| - 1], parse, x);
    }
  }

  lemma MigratedIsChecked(cn: string, extra: seq<string>, parse: string -> Option<string>, validDns: string -> bool)
    requires cn == Placeholder("name") || cn == Placeholder("fqdn")
    requires forall s :: parse(s).Some? ==> '{' !in s && '}' !in s
    ensures Checked(cn, [Placeholder("fqdn")] + Others(extra, parse), [Placeholder("ip")] + Addresses(extra, parse),
                    validDns, (s: string) => parse(s).Some?)
       <==> forall x :: x in extra ==> parse(x).Some? || EntryOk(x, validDns)
  {
    hide EntryOk, Placeholder, Tokenize;
    var validIp := (s: string) => parse(s).Some?;
    PlaceholderIsValid("fqdn", validDns);
    PlaceholderIsValid("name", validDns);
    PlaceholderIsValid("ip", validIp);
    forall x
      ensures x in Addresses(extra, parse) ==> EntryOk(x, validIp)
      ensures x in Others(extra, parse) <==> x in extra && parse(x).None?
    {
      SplitMembers(extra, parse, x);
      if parse(x).Some? {
        AddressIsPlain(x, validIp);
      }
    }
    forall x | x in extra && parse(x).None?
      ensures x in [Placeholder("fqdn")] + Others(extra, parse)
    {
    }
  }

  lemma AddressIsPlain(s: string, valid: string -> bool)
    requires '{' !in s && '}' !in s && valid(s)
    ensures EntryOk(s, valid)
  {
    PlainPrefix(s, |s|);
    assert s[|s|..] == "";
  }

  /** A variable name between braces and spaces is a template of one placeholder. */
  lemma PlaceholderIsValid(name: string, valid: string -> bool)
    requires name in VARIABLES
    ensures var s := Placeholder(name); s != "" && Tokenize(s) == Ok([Var(name)]) && EntryOk(s, valid)
  {
    hide Trim;
    var s := Placeholder(name);
    var inner, end := s[2..], |name| + 2;
    VariableFacts(name);
    assert inner == " " + name + " }}";
    assert PairAt(s, 0, '{');
    ClosesAt(inner, end);
    assert s[2..2 + end] == " " + name + " ";
    TrimPadded(name);
    assert s[2 + end + 2..] == "";
    PlaceholderTokens(s, end, name);
  }

  /** A template is read from the left: text without braces is kept, a placeholder becomes the device's value. */
  lemma PlaceholderExpands(front: string, pad: string, name: string, pad': string, rest: string, vals: Values)
    requires '{' !in front && '}' !in front && name in {"fqdn", "name", "ip"}
    requires forall c :: c in pad + pad' ==> c in {' ', '\t', '\n', '\r'}
    ensures var value := if name in vals then vals[name] else "";
            Expand(front + "{{" + pad + name + pad' + "}}" + rest, vals) ==
            match Expand(rest, vals)
            case Ok(x) => Ok(Expansion(front + value + x.text, if value == "" then name else x.empty))
            case Err(e) => Err(e)
  {
    hide Tokenize, Substitute, FirstEmpty;
    var hole := "{{" + pad + name + pad' + "}}" + rest;
    var whole := front + hole;
    assert front + "{{" + pad + name + pad' + "}}" + rest == whole;
    assert whole[..|front|] == front && whole[|front|..] == hole;
    PlainPrefix(whole, |front|);
    PlaceholderReads(pad, name, pad', rest);
    AppendAppend(Texts(front), [Var(name)], Tokenize(rest));
    if Tokenize(rest).Ok? {
      var ts := Tokenize(rest).value;
      SubstituteAppend(Texts(front), [Var(name)] + ts, vals);
      TextsRender(front, vals);
      VarRenders(name, ts, vals);
      assert Texts(front) + [Var(name)] + ts == Texts(front) + ([Var(name)] + ts);
      assert Tokenize(whole) == Ok(Texts(front) + ([Var(name)] + ts));
      Regroup(front, Value(vals, name), Substitute(ts, vals));
    }
  }

  lemma VarRenders(name: string, ts: seq<Token>, vals: Values)
    requires name != ""
    ensures Substitute([Var(name)] + ts, vals) == Value(vals, name) + Substitute(ts, vals)
    ensures FirstEmpty([Var(name)] + ts, vals) == if Value(vals, name) == "" then name else FirstEmpty(ts, vals)
  {
  }

  lemma PlaceholderReads(pad: string, name: string, pad': string, rest: string)
    requires name in VARIABLES && forall c :: c in pad + pad' ==> c in {' ', '\t', '\n', '\r'}
    ensures Tokenize("{{" + pad + name + pad' + "}}" + rest) == Append([Var(name)], Tokenize(rest))
  {
    hide Trim, FirstPair, HasPair;
    var body := pad + name + pad';
    var s := "{{" + pad + name + pad' + "}}" + rest;
    var inner := s[2..];
    VariableFacts(name);
    assert inner == body + "}}" + rest && inner[..|body|] == body;
    forall c | c in body
      ensures c != '}'
    {
      assert c in name || c in pad + pad';
    }
    ClosesAt(inner, |body|);
    assert s[2..2 + |body|] == body && s[2 + |body| + 2..] == rest;
    forall c | c in pad + pad'
      ensures Space(c)
    {
    }
    TrimPads(pad, name, pad');
  }

  lemma {:induction false} TrimPads(pad: string, name: string, pad': string)
    requires name != "" && !Space(name[0]) && !Space(name[|name| - 1])
    requires forall c :: c in pad + pad' ==> Space(c)
    ensures Trim(pad + name + pad') == name
    decreases |pad| + |pad'|
  {
    hide Space;
    var s := pad + name + pad';
    if pad != "" {
      assert s[0] == pad[0] && pad[0] in pad + pad' && s[1..] == pad[1..] + name + pad';
      assert forall c :: c in pad[1..] + pad' ==> c in pad + pad';
      TrimPads(pad[1..], name, pad');
    } else if pad' != "" {
      var front := pad'[..|pad'| - 1];
      assert s[0] == name[0] && s[|s| - 1] == pad'[|pad'| - 1] && pad'[|pad'| - 1] in pad + pad';
      assert s[..|s| - 1] == pad + name + front;
      assert forall c :: c in pad + front ==> c in pad + pad';
      TrimPads(pad, name, front);
    } else {
      assert s == name;
    }
  }

  lemma PlaceholderTokens(s: string, end: nat, name: string)
    requires PairAt(s, 0, '{') && FirstPair(s[2..], '}') == Some(end) && Trim(s[2..2 + end]) == name
    requires name in VARIABLES && !HasPair(name, '{') && s[2 + end + 2..] == ""
    ensures Tokenize(s) == Ok([Var(name)])
  {
    hide FirstPair, Trim, HasPair;
    assert Tokenize("") == Ok([]);
    assert [Var(name)] + [] == [Var(name)];
  }

  lemma VariableFacts(name: string)
    requires name in VARIABLES
    ensures name != "" && !Space(name[0]) && !Space(name[|name| - 1]) && '}' !in name && !HasPair(name, '{')
  {
    assert name == "fqdn" || name == "name" || name == "ip";
  }

  lemma ClosesAt(inner: string, end: nat)
    requires |inner| >= end + 2 && inner[end] == '}' && inner[end + 1] == '}' && '}' !in inner[..end]
    ensures FirstPair(inner, '}') == Some(end)
  {
    hide FirstPair;
    assert PairAt(inner, end, '}');
    forall i | 0 <= i < end
      ensures !PairAt(inner, i, '}')
    {
      assert inner[i] == inner[..end][i];
    }
  }

  lemma TrimPadded(name: string)
    requires name != "" && !Space(name[0]) && !Space(name[|name| - 1])
    ensures Trim(" " + name + " ") == name
  {
    var right := name + " ";
    assert (" " + name + " ")[1..] == right;
    assert right[0] == name[0] && right[|right| - 1] == ' ' && right[..|right| - 1] == name;
    assert Trim(name) == name;
    assert Trim(right) == Trim(name);
  }
}
