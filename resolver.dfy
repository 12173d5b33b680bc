/**
 * DynamicVariableHandler.resolve_text over a variable table: re.sub with the
 * placeholder pattern, where each match is replaced by str(value) when the
 * variable's value is truthy and by the literal "{name}" otherwise. The
 * replacement text is never scanned again, and text between matches is copied
 * as it is.
 */
module Resolver {
  import opened Wrappers
  import opened PyValues
  import opened Extractor
  import opened Seqs

  type Table = map<string, Value>

  /** dict.get(name): the stored value, or None for a name absent from the dict. */
  function Lookup(vars: Table, name: string): Value {
    if name in vars then vars[name] else Null
  }

  /** What the callback returns for one match: `str(get_variable(name) or "{name}")`. */
  function Replacement(vars: Table, name: string): string {
    var v := Lookup(vars, name);
    if Truthy(v) then Stringify(v) else Placeholder(name)
  }

  /** The output re.sub assembles from the scan: passed-over characters, then each match's replacement. */
  function Substitute(vars: Table, ps: seq<Piece>): string {
    if ps == [] then ""
    else
      (match ps[0]
       case Char(c) => [c]
       case Match(name) => Replacement(vars, name))
      + Substitute(vars, ps[1..])
  }

  /** re.sub(pattern, replace_variable, text). */
  function Resolve(vars: Table, text: string): string {
    Substitute(vars, Scan(text))
  }

  /** resolve_text: an absent or empty text resolves to "" without a scan. */
  function ResolveTemplate(vars: Table, text: Option<string>): (r: string)
    ensures text == None || text == Some("") ==> r == ""
    ensures text.Some? && text.value != "" ==> r == Resolve(vars, text.value)
  {
    if text.None? || text.value == "" then "" else Resolve(vars, text.value)
  }

  lemma SubstituteCons(vars: Table, p: Piece, ps: seq<Piece>)
    ensures Substitute(vars, [p] + ps) == Substitute(vars, [p]) + Substitute(vars, ps)
  {
    assert ([p] + ps)[1..] == ps;
  }

  /** When no matched name has a truthy value, every match is put back as it was. */
  lemma {:induction false} SubstituteFalsy(vars: Table, ps: seq<Piece>)
    requires forall k :: 0 <= k < |ps| && ps[k].Match? ==> !Truthy(Lookup(vars, ps[k].name))
    ensures Substitute(vars, ps) == Render(ps)
  {
    if ps != [] {
      assert forall k :: 0 <= k < |ps| - 1 ==> ps[1..][k] == ps[k + 1];
      SubstituteFalsy(vars, ps[1..]);
    }
  }

  /** A text whose placeholders all name unset or falsy variables comes back unchanged. */
  lemma ResolveKeepsFalsy(vars: Table, text: string)
    requires forall name :: name in Extract(text) ==> !Truthy(Lookup(vars, name))
    ensures Resolve(vars, text) == text
  {
    var ps := Scan(text);
    MatchNamesMembers(ps);
    forall k | 0 <= k < |ps| && ps[k].Match?
      ensures !Truthy(Lookup(vars, ps[k].name))
    {
      assert Match(ps[k].name) in ps;
    }
    SubstituteFalsy(vars, ps);
    ScanRendersText(text);
  }

  /** Two tables that agree on every matched name substitute the same text. */
  lemma {:induction false} SubstituteAgrees(vars: Table, other: Table, ps: seq<Piece>)
    requires forall k :: 0 <= k < |ps| && ps[k].Match? ==> Lookup(vars, ps[k].name) == Lookup(other, ps[k].name)
    ensures Substitute(vars, ps) == Substitute(other, ps)
  {
    if ps != [] {
      assert forall k :: 0 <= k < |ps| - 1 ==> ps[1..][k] == ps[k + 1];
      SubstituteAgrees(vars, other, ps[1..]);
    }
  }

  /** resolve_text reads only the variables extract finds in the text: tables agreeing on those give the same result. */
  lemma ResolveReadsOnlyExtracted(vars: Table, other: Table, text: string)
    requires forall name :: name in Extract(text) ==> Lookup(vars, name) == Lookup(other, name)
    ensures Resolve(vars, text) == Resolve(other, text)
  {
    var ps := Scan(text);
    MatchNamesMembers(ps);
    forall k | 0 <= k < |ps| && ps[k].Match?
      ensures Lookup(vars, ps[k].name) == Lookup(other, ps[k].name)
    {
      assert Match(ps[k].name) in ps;
    }
    SubstituteAgrees(vars, other, ps);
  }

  /** A text with no '{' closed by a '}' on its line comes back unchanged, whatever the table holds. */
  lemma ResolveWithoutPlaceholder(vars: Table, text: string)
    requires !HasPlaceholder(text)
    ensures Resolve(vars, text) == text
  {
    ExtractEmptyIff(text);
    ResolveKeepsFalsy(vars, text);
  }

  /** With an empty table nothing is substituted. */
  lemma ResolveEmptyTable(text: string)
    ensures Resolve(map[], text) == text
  {
    ResolveKeepsFalsy(map[], text);
  }

  /** A character other than '{' at the front is copied. */
  lemma ResolveCharPrefix(vars: Table, c: char, rest: string)
    requires c != '{'
    ensures Resolve(vars, [c] + rest) == [c] + Resolve(vars, rest)
  {
    ScanCharPrefix(c, rest);
    SubstituteCons(vars, Char(c), Scan(rest));
  }

  lemma {:induction false} SubstituteAppend(vars: Table, ps: seq<Piece>, qs: seq<Piece>)
    ensures Substitute(vars, ps + qs) == Substitute(vars, ps) + Substitute(vars, qs)
  {
    if ps == [] {
      AppendNil(qs);
      AppendNil(Substitute(vars, qs));
    } else {
      var p, tail := ps[0], ps[1..];
      FirstRest(ps);
      ConsAppend(p, tail, qs);
      SubstituteAppend(vars, tail, qs);
      SubstituteCons(vars, p, tail + qs);
      SubstituteCons(vars, p, tail);
      Assoc(Substitute(vars, [p]), Substitute(vars, tail), Substitute(vars, qs));
    }
  }

  lemma {:induction false} SubstituteChars(vars: Table, t: string)
    ensures Substitute(vars, Chars(t)) == t
  {
    if t != [] {
      SubstituteChars(vars, t[1..]);
      SubstituteCons(vars, Char(t[0]), Chars(t[1..]));
      FirstRest(t);
    }
  }

  /** Text without a '{' at the front is copied verbatim; the rest resolves on its own. */
  lemma ResolveLiteralPrefix(vars: Table, t: string, rest: string)
    requires '{' !in t
    ensures Resolve(vars, t + rest) == t + Resolve(vars, rest)
  {
    ScanLiteralPrefix(t, rest);
    SubstituteAppend(vars, Chars(t), Scan(rest));
    SubstituteChars(vars, t);
  }

  /**
   * A placeholder at the front is replaced by its callback's value and the rest
   * resolves on its own: the inserted text is not scanned again.
   */
  lemma ResolveMatchPrefix(vars: Table, name: string, rest: string)
    requires CleanName(name)
    ensures Resolve(vars, Placeholder(name) + rest) == Replacement(vars, name) + Resolve(vars, rest)
  {
    ScanMatchPrefix(name, rest);
    SubstituteCons(vars, Match(name), Scan(rest));
  }

  /** A '{' with no '}' after it on its line is copied as it is. */
  lemma ResolveUnmatchedBrace(vars: Table, rest: string)
    requires CloseBrace(rest).None?
    ensures Resolve(vars, "{" + rest) == "{" + Resolve(vars, rest)
  {
    ScanUnmatchedBrace(rest);
    SubstituteCons(vars, Char('{'), Scan(rest));
  }

  /**
   * The falsy fallback: a lone placeholder becomes str(v) when its variable holds a
   * truthy v, and stays the literal "{name}" when the variable is unset, None, 0, "" or False.
   */
  lemma ResolvePlaceholder(vars: Table, name: string)
    requires CleanName(name)
    ensures Truthy(Lookup(vars, name)) ==> Resolve(vars, Placeholder(name)) == Stringify(Lookup(vars, name))
    ensures !Truthy(Lookup(vars, name)) ==> Resolve(vars, Placeholder(name)) == Placeholder(name)
  {
    ResolveMatchPrefix(vars, name, "");
    assert Placeholder(name) + "" == Placeholder(name);
  }

  /** Plain text followed by one placeholder: the text is kept and the placeholder replaced. */
  lemma ResolveTextThenPlaceholder(vars: Table, t: string, name: string)
    requires '{' !in t && CleanName(name)
    ensures Resolve(vars, t + Placeholder(name)) == t + Replacement(vars, name)
  {
    ResolveLiteralPrefix(vars, t, Placeholder(name));
    ResolvePlaceholder(vars, name);
  }

  /** set_variable("x", 0); resolve_text("{x}") gives "{x}": a zero is indistinguishable from unset. */
  lemma ZeroKeepsPlaceholder()
    ensures Resolve(map["x" := Int(0)], Placeholder("x")) == Placeholder("x")
  {
    ResolvePlaceholder(map["x" := Int(0)], "x");
  }

  /** A value that itself looks like a placeholder is inserted as it is, not expanded again. */
  lemma SinglePass(a: string, b: string, v: Value)
    requires CleanName(a) && CleanName(b) && a != b && Truthy(v)
    ensures var vars := map[a := Str(Placeholder(b)), b := v];
      Resolve(vars, Placeholder(b)) == Stringify(v) && Resolve(vars, Placeholder(a)) == Placeholder(b)
  {
    var vars := map[a := Str(Placeholder(b)), b := v];
    assert Lookup(vars, a) == Str(Placeholder(b)) && Lookup(vars, b) == v;
    ResolvePlaceholder(vars, a);
    ResolvePlaceholder(vars, b);
  }
}
