/**
 * DynamicVariableExtractor: the placeholder pattern `\{(.*?)\}` run left to
 * right over a text, as Python's re module runs it for findall and sub.
 *
 * At a '{' the lazy group grows one character at a time until the next
 * character is '}'. The group's '.' does not match a newline, so a '{' that
 * meets a '\n' before any '}' starts no match, and the scan moves on by one
 * character. The group may swallow further '{' characters: "{{a}" is one match
 * whose group is "{a". A match never overlaps the next one: scanning resumes
 * just after the closing '}'.
 */
module Extractor {
  import opened Wrappers
  import opened Seqs

  /** No newline among s[lo..hi]. */
  predicate LineFree(s: string, lo: int, hi: int) {
    forall k :: lo <= k < hi && 0 <= k < |s| ==> s[k] != '\n'
  }

  /** The group ends just before index j of t (the text after a '{'): t[j] is the first '}' and no newline comes before it. */
  predicate ClosesAt(t: string, j: int) {
    0 <= j < |t| && t[j] == '}' && LineFree(t, 0, j) && forall k :: 0 <= k < j ==> t[k] != '}'
  }

  /** Where the lazy group stops, given the text after a '{'; None when no match starts at that '{'. */
  function CloseBrace(t: string): Option<nat> {
    if t == [] then None
    else if t[0] == '}' then Some(0)
    else if t[0] == '\n' then None
    else
      match CloseBrace(t[1..])
      case None => None
      case Some(j) => Some(j + 1)
  }

  /** The text "{name}": the placeholder for a name, and what resolution keeps when it has no value. */
  function Placeholder(name: string): string {
    "{" + name + "}"
  }

  /**
   * CloseBrace finds the first '}' when no newline precedes it, and reports
   * None exactly when every '}' has a newline before it.
   */
  lemma {:induction false} CloseBraceSpec(t: string)
    ensures CloseBrace(t).Some? ==> ClosesAt(t, CloseBrace(t).value)
    ensures CloseBrace(t).None? ==> forall j :: 0 <= j < |t| && t[j] == '}' ==> !LineFree(t, 0, j)
  {
    if t != [] && t[0] != '}' && t[0] != '\n' {
      var tail := t[1..];
      CloseBraceSpec(tail);
      assert forall k :: 0 <= k < |tail| ==> tail[k] == t[k + 1];
      if CloseBrace(tail).None? {
        forall j | 0 <= j < |t| && t[j] == '}'
          ensures !LineFree(t, 0, j)
        {
          assert tail[j - 1] == '}';
          assert !LineFree(tail, 0, j - 1);
        }
      }
    }
  }

  /** One step of the scan: a character passed over, or one match of the pattern with its group. */
  datatype Piece = Char(c: char) | Match(name: string)

  /** The text a piece covers in the scanned string. */
  function PieceText(p: Piece): string {
    match p
    case Char(c) => [c]
    case Match(name) => Placeholder(name)
  }

  function Render(ps: seq<Piece>): string {
    if ps == [] then "" else PieceText(ps[0]) + Render(ps[1..])
  }

  /** A group the pattern can capture: it holds neither '}' nor a newline. */
  predicate CleanName(name: string) {
    forall k :: 0 <= k < |name| ==> name[k] != '}' && name[k] != '\n'
  }

  /** How many characters of the text a piece covers. */
  function Width(p: Piece): (n: nat)
    ensures n == |PieceText(p)|
  {
    match p
    case Char(_) => 1
    case Match(name) => |name| + 2
  }

  /**
   * The piece the scan takes at the front of s: the match starting there if
   * there is one, else the first character.
   */
  function Front(s: string): (p: Piece)
    requires s != []
    ensures 0 < Width(p) <= |s|
  {
    var close := if s[0] == '{' then CloseBrace(s[1..]) else None;
    if close.Some? then
      CloseBraceSpec(s[1..]);
      Match(s[1..close.value + 1])
    else
      Char(s[0])
  }

  /** The scan of the whole text, leftmost match first. */
  function Scan(s: string): seq<Piece>
    decreases |s|
  {
    if s == [] then [] else [Front(s)] + Scan(s[Width(Front(s))..])
  }

  /** The front piece is exactly the text it covers, and a match's group is clean. */
  lemma FrontCovers(s: string)
    requires s != []
    ensures s[..Width(Front(s))] == PieceText(Front(s))
    ensures Front(s).Match? ==> CleanName(Front(s).name)
  {
    if s[0] == '{' && CloseBrace(s[1..]).Some? {
      CloseBraceSpec(s[1..]);
      var j := CloseBrace(s[1..]).value;
      assert s[..j + 2] == Placeholder(s[1..j + 1]);
      assert forall k :: 0 <= k < j ==> s[1..j + 1][k] == s[1..][k];
    }
  }

  /** The groups of the matches, in order. */
  function MatchNames(ps: seq<Piece>): seq<string> {
    if ps == [] then []
    else (if ps[0].Match? then [ps[0].name] else []) + MatchNames(ps[1..])
  }

  lemma ScanStep(s: string)
    requires s != []
    ensures Scan(s) == [Front(s)] + Scan(s[Width(Front(s))..])
  {
  }

  lemma RenderCons(p: Piece, ps: seq<Piece>)
    ensures Render([p] + ps) == PieceText(p) + Render(ps)
  {
    ConsTail(p, ps);
  }

  lemma MatchNamesCons(p: Piece, ps: seq<Piece>)
    ensures MatchNames([p] + ps) == (if p.Match? then [p.name] else []) + MatchNames(ps)
  {
    assert ([p] + ps)[1..] == ps;
  }

  /** The scan loses nothing: putting its pieces back together gives the text scanned. */
  lemma {:induction false} ScanRendersText(s: string)
    ensures Render(Scan(s)) == s
    decreases |s|
  {
    if s != [] {
      var p := Front(s);
      var rest := s[Width(p)..];
      FrontCovers(s);
      ScanStep(s);
      ScanRendersText(rest);
      RenderCons(p, Scan(rest));
      TakeDrop(s, Width(p));
    }
  }

  /** Every group the scan captures is clean. */
  lemma {:induction false} ScanNamesClean(s: string)
    ensures forall p :: p in Scan(s) && p.Match? ==> CleanName(p.name)
    decreases |s|
  {
    if s != [] {
      var rest := s[Width(Front(s))..];
      FrontCovers(s);
      ScanNamesClean(rest);
      assert forall p :: p in Scan(s) ==> p == Front(s) || p in Scan(rest);
    }
  }

  /** A name is among the groups exactly when the scan holds a match with that group. */
  lemma {:induction false} MatchNamesMembers(ps: seq<Piece>)
    ensures forall name :: name in MatchNames(ps) <==> Match(name) in ps
  {
    if ps != [] {
      MatchNamesMembers(ps[1..]);
      assert ps == [ps[0]] + ps[1..];
      MatchNamesCons(ps[0], ps[1..]);
    }
  }

  /** DynamicVariableExtractor.extract: re.findall, every group left to right, duplicates kept. */
  function Extract(text: string): (names: seq<string>)
    ensures forall name :: name in names ==> CleanName(name)
  {
    ScanNamesClean(text);
    MatchNamesMembers(Scan(text));
    MatchNames(Scan(text))
  }

  /** Somewhere a '{' is followed, on the same line, by a '}'. */
  predicate HasPlaceholder(s: string) {
    exists i, j :: 0 <= i < j < |s| && s[i] == '{' && s[j] == '}' && LineFree(s, i + 1, j)
  }

  /** A clean name followed by '}' closes right there. */
  lemma CloseBraceAfterName(name: string, rest: string)
    requires CleanName(name)
    ensures CloseBrace(name + "}" + rest) == Some(|name|)
  {
    var t := name + "}" + rest;
    CloseBraceSpec(t);
    assert t[|name|] == '}';
    assert forall k :: 0 <= k < |name| ==> t[k] == name[k];
  }

  /** A placeholder at the front of a text is matched first; the rest is scanned on its own. */
  lemma ScanMatchPrefix(name: string, rest: string)
    requires CleanName(name)
    ensures Scan(Placeholder(name) + rest) == [Match(name)] + Scan(rest)
  {
    var s := Placeholder(name) + rest;
    assert s[1..] == name + "}" + rest;
    CloseBraceAfterName(name, rest);
    assert s[1..|name| + 1] == name;
    assert Front(s) == Match(name);
    assert s[|name| + 2..] == rest;
  }

  /** A character other than '{' at the front is passed over. */
  lemma ScanCharPrefix(c: char, rest: string)
    requires c != '{'
    ensures Scan([c] + rest) == [Char(c)] + Scan(rest)
  {
    ConsTail(c, rest);
  }

  /** A '{' that no '}' closes on its line is passed over like any other character. */
  lemma ScanUnmatchedBrace(rest: string)
    requires CloseBrace(rest).None?
    ensures Scan("{" + rest) == [Char('{')] + Scan(rest)
  {
    assert ("{" + rest)[1..] == rest;
  }

  /** The groups of a text that starts with a placeholder: its name, then the rest's. */
  lemma ExtractMatchPrefix(name: string, rest: string)
    requires CleanName(name)
    ensures Extract(Placeholder(name) + rest) == [name] + Extract(rest)
  {
    ScanMatchPrefix(name, rest);
    MatchNamesCons(Match(name), Scan(rest));
  }

  /** The pieces that pass over each character of t in turn. */
  function Chars(t: string): seq<Piece> {
    if t == [] then [] else [Char(t[0])] + Chars(t[1..])
  }

  lemma {:induction false} MatchNamesAppend(ps: seq<Piece>, qs: seq<Piece>)
    ensures MatchNames(ps + qs) == MatchNames(ps) + MatchNames(qs)
  {
    if ps == [] {
      AppendNil(qs);
      AppendNil(MatchNames(qs));
    } else {
      var p, tail := ps[0], ps[1..];
      FirstRest(ps);
      ConsAppend(p, tail, qs);
      MatchNamesAppend(tail, qs);
      MatchNamesCons(p, tail + qs);
      MatchNamesCons(p, tail);
      Assoc(if p.Match? then [p.name] else [], MatchNames(tail), MatchNames(qs));
    }
  }

  lemma {:induction false} MatchNamesChars(t: string)
    ensures MatchNames(Chars(t)) == []
  {
    if t != [] {
      MatchNamesChars(t[1..]);
      MatchNamesCons(Char(t[0]), Chars(t[1..]));
      AppendNil(MatchNames(Chars(t[1..])));
    }
  }

  /** Text without a '{' is passed over character by character; the rest is scanned on its own. */
  lemma {:induction false} ScanLiteralPrefix(t: string, rest: string)
    requires '{' !in t
    ensures Scan(t + rest) == Chars(t) + Scan(rest)
    decreases |t|
  {
    if t == [] {
      AppendNil(rest);
      AppendNil(Scan(rest));
    } else {
      var c, tail := t[0], t[1..];
      assert c != '{' && '{' !in tail by {
        assert c in t;
        assert forall x :: x in tail ==> x in t;
      }
      FirstRest(t);
      ConsAppend(c, tail, rest);
      ScanLiteralPrefix(tail, rest);
      ScanCharPrefix(c, tail + rest);
      ConsAppend(Char(c), Chars(tail), Scan(rest));
    }
  }

  /** Text without a '{' contributes no group. */
  lemma ExtractLiteralPrefix(t: string, rest: string)
    requires '{' !in t
    ensures Extract(t + rest) == Extract(rest)
  {
    ScanLiteralPrefix(t, rest);
    MatchNamesAppend(Chars(t), Scan(rest));
    MatchNamesChars(t);
  }

  /** A match found at the front witnesses a placeholder. */
  lemma HasPlaceholderAtFront(s: string)
    requires s != [] && Front(s).Match?
    ensures HasPlaceholder(s)
  {
    var j := CloseBrace(s[1..]).value;
    CloseBraceSpec(s[1..]);
    assert s[0] == '{' && s[j + 1] == '}';
    assert LineFree(s, 1, j + 1) by {
      assert forall k :: 1 <= k < j + 1 ==> s[k] == s[1..][k - 1];
    }
  }

  /** A placeholder after the first character is a placeholder of the whole text. */
  lemma HasPlaceholderShift(s: string)
    requires s != [] && HasPlaceholder(s[1..])
    ensures HasPlaceholder(s)
  {
    var t := s[1..];
    var i, j :| 0 <= i < j < |t| && t[i] == '{' && t[j] == '}' && LineFree(t, i + 1, j);
    assert s[i + 1] == '{' && s[j + 1] == '}';
    assert LineFree(s, i + 2, j + 1) by {
      assert forall k :: i + 2 <= k < j + 1 ==> s[k] == t[k - 1];
    }
  }

  /** A placeholder either starts at the front, where the scan then finds a match, or lies after the first character. */
  lemma HasPlaceholderSplit(s: string)
    requires s != [] && HasPlaceholder(s)
    ensures Front(s).Match? || HasPlaceholder(s[1..])
  {
    var t := s[1..];
    var i, j :| 0 <= i < j < |s| && s[i] == '{' && s[j] == '}' && LineFree(s, i + 1, j);
    if i == 0 {
      CloseBraceSpec(t);
      assert t[j - 1] == '}';
      assert LineFree(t, 0, j - 1) by {
        assert forall k :: 0 <= k < j - 1 ==> t[k] == s[k + 1];
      }
      assert CloseBrace(t).Some?;
    } else {
      assert t[i - 1] == '{' && t[j - 1] == '}';
      assert LineFree(t, i, j - 1) by {
        assert forall k :: i <= k < j - 1 ==> t[k] == s[k + 1];
      }
    }
  }

  /** extract finds nothing exactly when no '{' is closed by a '}' on the same line. */
  lemma {:induction false} ExtractEmptyIff(s: string)
    ensures Extract(s) == [] <==> !HasPlaceholder(s)
    decreases |s|
  {
    if s != [] {
      var p := Front(s);
      var rest := s[Width(p)..];
      MatchNamesCons(p, Scan(rest));
      if p.Match? {
        HasPlaceholderAtFront(s);
      } else {
        ExtractEmptyIff(rest);
        if HasPlaceholder(s) {
          HasPlaceholderSplit(s);
        }
        if HasPlaceholder(rest) {
          HasPlaceholderShift(s);
        }
      }
    }
  }

  /** Groups come back left to right with duplicates kept: "{a}{a}{b}" gives [a, a, b]. */
  lemma ExtractKeepsDuplicates(a: string, b: string)
    requires CleanName(a) && CleanName(b)
    ensures Extract(Placeholder(a) + Placeholder(a) + Placeholder(b)) == [a, a, b]
  {
    ExtractMatchPrefix(b, "");
    assert Placeholder(b) + "" == Placeholder(b);
    ExtractMatchPrefix(a, Placeholder(b));
    ExtractMatchPrefix(a, Placeholder(a) + Placeholder(b));
    assert Placeholder(a) + Placeholder(a) + Placeholder(b) == Placeholder(a) + (Placeholder(a) + Placeholder(b));
  }

  /** "{}" is a match whose group is the empty name. */
  lemma ExtractEmptyName()
    ensures Extract("{}") == [""]
  {
    ExtractMatchPrefix("", "");
    assert Placeholder("") + "" == "{}";
  }

  /** The group may swallow a '{': "{{a}" is one match, "{a". */
  lemma ExtractInnerBrace()
    ensures Extract("{{a}") == ["{a"]
  {
    ExtractMatchPrefix("{a", "");
    assert Placeholder("{a") + "" == "{{a}";
  }

  /** A newline between the braces means no match. */
  lemma ExtractNewlineBreaksMatch()
    ensures Extract("{a\n}") == []
  {
    ExtractEmptyIff("{a\n}");
  }
}
