/** The two regular expressions of the tool, written out as functions over
    the text: `directives = @[a-zA-Z]\s*.*` and `literal = "[^"]*"`
    (tom.py:32-33), with Python's `findall` and `search`. The source runs on
    byte strings, so `\s` is one of space, tab, newline, carriage return,
    form feed and vertical tab, and `.` is any character but a newline. */
module Patterns {
  import opened Wrappers
  import opened Strings

  predicate IsAsciiLetter(c: char) {
    ('a' <= c <= 'z') || ('A' <= c <= 'Z')
  }

  predicate IsSpace(c: char) {
    c == ' ' || c == '\t' || c == '\n' || c == '\r' || c == '\U{C}' || c == '\U{B}'
  }

  /** The end of the greedy `\s*` run starting at `i`. */
  function SkipSpace(t: string, i: nat): (j: nat)
    requires i <= |t|
    ensures i <= j <= |t|
    ensures forall k :: i <= k < j ==> IsSpace(t[k])
    ensures j < |t| ==> !IsSpace(t[j])
    decreases |t| - i
  {
    if i < |t| && IsSpace(t[i]) then SkipSpace(t, i + 1) else i
  }

  /** The end of the greedy `.*` run starting at `i`: the next newline or the
      end of the text. */
  function SkipLine(t: string, i: nat): (j: nat)
    requires i <= |t|
    ensures i <= j <= |t|
    ensures forall k :: i <= k < j ==> t[k] != '\n'
    ensures j < |t| ==> t[j] == '\n'
    decreases |t| - i
  {
    if i < |t| && t[i] != '\n' then SkipLine(t, i + 1) else i
  }

  /** The directive pattern matches at `i`. */
  predicate DirectiveAt(t: string, i: nat) {
    i + 1 < |t| && t[i] == '@' && IsAsciiLetter(t[i + 1])
  }

  function DirectiveEnd(t: string, i: nat): (e: nat)
    requires DirectiveAt(t, i)
    ensures i + 2 <= e <= |t|
  {
    SkipLine(t, SkipSpace(t, i + 2))
  }

  /** `findall` of the directive pattern from position `i`: a match is tried
      at every position and the search resumes where a match ends. */
  function DirectivesFrom(t: string, i: nat): seq<string>
    requires i <= |t|
    decreases |t| - i
  {
    if i == |t| then []
    else if DirectiveAt(t, i) then [t[i..DirectiveEnd(t, i)]] + DirectivesFrom(t, DirectiveEnd(t, i))
    else DirectivesFrom(t, i + 1)
  }

  function Directives(text: string): seq<string> {
    DirectivesFrom(text, 0)
  }

  /** Every directive found is a piece of the text that starts with '@' and
      a letter and reaches the end of its line. */
  lemma {:induction false} DirectivesFromShape(t: string, i: nat)
    requires i <= |t|
    ensures forall d :: d in DirectivesFrom(t, i) ==>
      exists s :: i <= s && DirectiveAt(t, s) && d == t[s..DirectiveEnd(t, s)]
    decreases |t| - i
  {
    if i < |t| {
      if DirectiveAt(t, i) {
        DirectivesFromShape(t, DirectiveEnd(t, i));
      } else {
        DirectivesFromShape(t, i + 1);
      }
    }
  }

  /** `findall` finds the leftmost match at or after `i` first, skipping
      no match, and resumes where that match ends. */
  lemma {:induction false} NextDirectiveFound(t: string, i: nat, s: nat)
    requires i <= s && DirectiveAt(t, s)
    requires forall k :: i <= k < s ==> !DirectiveAt(t, k)
    ensures DirectivesFrom(t, i) == [t[s..DirectiveEnd(t, s)]] + DirectivesFrom(t, DirectiveEnd(t, s))
    decreases s - i
  {
    if i < s {
      NextDirectiveFound(t, i + 1, s);
    }
  }

  /** With no match at or after `i`, `findall` yields nothing more. */
  lemma {:induction false} NoDirectiveLeft(t: string, i: nat)
    requires i <= |t|
    requires forall k :: i <= k < |t| ==> !DirectiveAt(t, k)
    ensures DirectivesFrom(t, i) == []
    decreases |t| - i
  {
    if i < |t| {
      NoDirectiveLeft(t, i + 1);
    }
  }

  /** A directive whose letter is followed by a character that is not
      white space, such as every `@requires` and `@produces`, is the rest of
      one physical line: it holds no newline and is followed by a newline or
      the end of the text. */
  lemma DirectiveIsOneLine(t: string, s: nat)
    requires DirectiveAt(t, s) && s + 2 < |t| && !IsSpace(t[s + 2])
    ensures '\n' !in t[s..DirectiveEnd(t, s)]
    ensures DirectiveEnd(t, s) == |t| || t[DirectiveEnd(t, s)] == '\n'
  {
    var e := DirectiveEnd(t, s);
    assert SkipSpace(t, s + 2) == s + 2;
    forall k | 0 <= k < e - s
      ensures t[s..e][k] != '\n'
    {
      assert t[s..e][k] == t[s + k];
    }
  }

  /** A text without '@' holds no directive. */
  lemma {:induction false} NoAtNoDirectives(t: string, i: nat)
    requires i <= |t|
    requires '@' !in t
    ensures DirectivesFrom(t, i) == []
    decreases |t| - i
  {
    if i < |t| {
      assert t[i] in t;
      NoAtNoDirectives(t, i + 1);
    }
  }

  /** The first index at or after `from` that holds `c`. */
  function IndexOf(s: string, c: char, from: nat): (r: Option<nat>)
    requires from <= |s|
    ensures r.Some? ==> from <= r.value < |s| && s[r.value] == c
    ensures r.Some? ==> forall k :: from <= k < r.value ==> s[k] != c
    ensures r.None? ==> forall k :: from <= k < |s| ==> s[k] != c
    decreases |s| - from
  {
    if from == |s| then None
    else if s[from] == c then Some(from)
    else IndexOf(s, c, from + 1)
  }

  /** `literal.search` from `from`: the span [start, end) of the leftmost
      quoted literal. The leftmost match starts at the first quote, provided
      another quote follows it; if none follows, nothing matches at all. */
  function NextLiteral(d: string, from: nat): (r: Option<(nat, nat)>)
    requires from <= |d|
    ensures r.Some? ==> from <= r.value.0 && r.value.0 + 2 <= r.value.1 <= |d|
  {
    match IndexOf(d, '"', from)
    case None => None
    case Some(a) =>
      match IndexOf(d, '"', a + 1)
      case None => None
      case Some(b) => Some((a, b + 1))
  }

  /** `literal.findall` from `from`. */
  function LiteralsFrom(d: string, from: nat): seq<string>
    requires from <= |d|
    decreases |d| - from
  {
    match NextLiteral(d, from)
    case None => []
    case Some((a, e)) => [d[a..e]] + LiteralsFrom(d, e)
  }

  function Literals(d: string): seq<string> {
    LiteralsFrom(d, 0)
  }

  /** The content of a quoted literal: its text between the quotes. */
  function Unquote(lit: string): string {
    Strip(lit, '"')
  }

  /** A quoted word: a quote, text without quotes, and a quote. */
  predicate IsQuoted(lit: string) {
    |lit| >= 2 && lit[0] == '"' && lit[|lit| - 1] == '"' && '"' !in lit[1..|lit| - 1]
  }

  lemma UnquoteQuoted(lit: string)
    requires IsQuoted(lit)
    ensures Unquote(lit) == lit[1..|lit| - 1]
  {
    assert lit == ['"'] + lit[1..|lit| - 1] + ['"'];
    StripQuoted(lit[1..|lit| - 1], '"');
  }

  /** A literal found by the search is a quote, text without quotes, and a
      quote, and no quote comes before it. */
  lemma NextLiteralShape(d: string, from: nat)
    requires from <= |d| && NextLiteral(d, from).Some?
    ensures var (a, e) := NextLiteral(d, from).value;
      IsQuoted(d[a..e]) && forall k :: from <= k < a ==> d[k] != '"'
  {
    var a := IndexOf(d, '"', from).value;
    var b := IndexOf(d, '"', a + 1).value;
    assert NextLiteral(d, from) == Some((a, b + 1));
    var e := b + 1;
    var lit := d[a..e];
    var x := d[a + 1..e - 1];
    assert lit[0] == d[a] && lit[|lit| - 1] == d[b];
    assert lit[1..|lit| - 1] == x;
    assert '"' !in x by {
      forall k | 0 <= k < |x|
        ensures x[k] != '"'
      {
        assert x[k] == d[a + 1 + k];
      }
    }
  }

  /** Stripping the quotes off the literal found leaves exactly the text
      between them. */
  lemma NextLiteralUnquote(d: string, from: nat)
    requires from <= |d| && NextLiteral(d, from).Some?
    ensures var (a, e) := NextLiteral(d, from).value;
      Unquote(d[a..e]) == d[a + 1..e - 1]
  {
    var (a, e) := NextLiteral(d, from).value;
    var lit := d[a..e];
    assert lit[1..|lit| - 1] == d[a + 1..e - 1];
    NextLiteralShape(d, from);
    UnquoteQuoted(lit);
  }

  /** `search` finds a literal exactly when `findall` finds at least one, and
      the one it finds is the first of them. */
  lemma SearchIsFirstLiteral(d: string)
    ensures NextLiteral(d, 0).Some? <==> |Literals(d)| > 0
    ensures NextLiteral(d, 0).Some? ==>
      var (a, e) := NextLiteral(d, 0).value; Literals(d)[0] == d[a..e]
  {
  }

  /** Every literal that `findall` yields is a quoted word. */
  lemma {:induction false} LiteralsFromShape(d: string, from: nat)
    requires from <= |d|
    ensures forall k :: 0 <= k < |LiteralsFrom(d, from)| ==> IsQuoted(LiteralsFrom(d, from)[k])
    decreases |d| - from
  {
    match NextLiteral(d, from)
    case None =>
    case Some((a, e)) =>
      NextLiteralShape(d, from);
      var lit := d[a..e];
      LiteralsFromShape(d, e);
      var rest := LiteralsFrom(d, e);
      assert LiteralsFrom(d, from) == [lit] + rest;
      forall k | 0 <= k < |LiteralsFrom(d, from)|
        ensures IsQuoted(LiteralsFrom(d, from)[k])
      {
        if k > 0 {
          assert LiteralsFrom(d, from)[k] == rest[k - 1];
        }
      }
  }
}
