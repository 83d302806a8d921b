/** Shell-style glob matching of one path element, as Go's filepath.Match does
    it on a Unix host for names without '/': `*` matches any run of non-'/'
    characters, `?` any one non-'/' character, `[...]` a character class (with
    `^` for negation and `lo-hi` ranges), and `\` escapes the next character.
    A malformed pattern is an error, never a match.  GlobMatch tries every way
    of splitting the name; filepath.Match commits to the leftmost match of each
    piece after a `*`; the two agree on every name without '/'.  The names
    matched here are base names, which hold a '/' only when they are "/"
    itself. */
module Glob {

  import opened Wrappers

  datatype Token =
    | Star
    | AnyChar
    | Lit(c: char)
    | Class(negated: bool, ranges: seq<(char, char)>)

  /** One character of a class: an optionally escaped character that is not
      '-' or ']' and is followed by more pattern text (a class must be closed). */
  function ClassChar(s: string): (r: Option<(char, string)>)
    ensures r.Some? ==> |r.value.1| > 0 && |r.value.1| < |s|
  {
    if |s| == 0 || s[0] == '-' || s[0] == ']' then None
    else if s[0] == '\\' then
      if |s| < 3 then None else Some((s[1], s[2..]))
    else if |s| < 2 then None
    else Some((s[0], s[1..]))
  }

  /** The ranges of a class after its opening '[' (and '^'), up to and
      including the closing ']'; `seen` ranges have been read already. */
  function ClassRanges(s: string, seen: seq<(char, char)>): (r: Option<(seq<(char, char)>, string)>)
    ensures r.Some? ==> |r.value.1| < |s|
    decreases |s|
  {
    if |s| > 0 && s[0] == ']' && |seen| > 0 then Some((seen, s[1..]))
    else match ClassChar(s)
      case None => None
      case Some((lo, rest)) =>
        if rest[0] == '-' then
          match ClassChar(rest[1..])
          case None => None
          case Some((hi, rest')) => ClassRanges(rest', seen + [(lo, hi)])
        else ClassRanges(rest, seen + [(lo, lo)])
  }

  /** The pattern as tokens, or None when it is malformed (ErrBadPattern). */
  function Tokenize(p: string): Option<seq<Token>>
    decreases |p|
  {
    if p == [] then Some([])
    else if p[0] == '*' then Prepend(Star, Tokenize(p[1..]))
    else if p[0] == '?' then Prepend(AnyChar, Tokenize(p[1..]))
    else if p[0] == '\\' then
      if |p| < 2 then None else Prepend(Lit(p[1]), Tokenize(p[2..]))
    else if p[0] == '[' then
      var negated := |p| > 1 && p[1] == '^';
      var body := if negated then p[2..] else p[1..];
      match ClassRanges(body, [])
      case None => None
      case Some((ranges, rest)) => Prepend(Class(negated, ranges), Tokenize(rest))
    else Prepend(Lit(p[0]), Tokenize(p[1..]))
  }

  function Prepend(t: Token, ts: Option<seq<Token>>): Option<seq<Token>> {
    match ts
    case None => None
    case Some(s) => Some([t] + s)
  }

  predicate InRanges(ranges: seq<(char, char)>, c: char) {
    exists i :: 0 <= i < |ranges| && ranges[i].0 <= c <= ranges[i].1
  }

  /** Whether the whole of `s` matches the tokens. */
  predicate GlobMatch(ts: seq<Token>, s: string)
    decreases |ts|, |s|
  {
    if ts == [] then s == []
    else match ts[0]
      case Star =>
        GlobMatch(ts[1..], s) || (|s| > 0 && s[0] != '/' && GlobMatch(ts, s[1..]))
      case AnyChar => |s| > 0 && s[0] != '/' && GlobMatch(ts[1..], s[1..])
      case Lit(c) => |s| > 0 && s[0] == c && GlobMatch(ts[1..], s[1..])
      case Class(negated, ranges) =>
        |s| > 0 && InRanges(ranges, s[0]) != negated && GlobMatch(ts[1..], s[1..])
  }

  /** filepath.Match(pattern, name) reported as `err == nil && matched`, for a
      name without '/'. */
  predicate Match(pattern: string, name: string) {
    Tokenize(pattern).Some? && GlobMatch(Tokenize(pattern).value, name)
  }

  /** A pattern without metacharacters. */
  predicate IsLiteral(p: string) {
    forall i :: 0 <= i < |p| ==> p[i] != '*' && p[i] != '?' && p[i] != '[' && p[i] != '\\'
  }

  lemma {:induction false} LiteralTokens(p: string)
    requires IsLiteral(p)
    ensures Tokenize(p).Some?
    ensures |Tokenize(p).value| == |p|
    ensures forall i :: 0 <= i < |p| ==> Tokenize(p).value[i] == Lit(p[i])
    decreases |p|
  {
    if p != [] {
      LiteralTokens(p[1..]);
    }
  }

  lemma {:induction false} LiteralTokensMatch(p: string, ts: seq<Token>, s: string)
    requires |ts| == |p|
    requires forall i :: 0 <= i < |p| ==> ts[i] == Lit(p[i])
    ensures GlobMatch(ts, s) <==> s == p
    decreases |p|
  {
    if p != [] {
      LiteralTokensMatch(p[1..], ts[1..], if |s| > 0 then s[1..] else s);
      if |s| > 0 && s[0] == p[0] && s[1..] == p[1..] {
        assert s == [s[0]] + s[1..];
        assert p == [p[0]] + p[1..];
      }
    }
  }

  /** A literal pattern matches only itself. */
  lemma LiteralMatchesOnlyItself(p: string, s: string)
    requires IsLiteral(p)
    ensures Match(p, s) <==> s == p
  {
    LiteralTokens(p);
    LiteralTokensMatch(p, Tokenize(p).value, s);
  }

  lemma {:induction false} StarMatchesNoSlash(s: string)
    ensures GlobMatch([Star], s) <==> '/' !in s
    decreases |s|
  {
    assert [Star][1..] == [];
    if s != [] {
      StarMatchesNoSlash(s[1..]);
      assert s == [s[0]] + s[1..];
    }
  }

  /** `*` matches every name without a '/' and nothing else. */
  lemma StarMatchesAnyElement(s: string)
    ensures Match("*", s) <==> '/' !in s
  {
    assert "*"[1..] == [];
    assert Tokenize([]) == Some([]);
    assert [Star] + [] == [Star];
    assert Tokenize("*") == Prepend(Star, Tokenize([]));
    StarMatchesNoSlash(s);
  }

  /** `*` then literal tokens, by induction on the name. */
  lemma {:induction false} StarThenLiteralTokens(lit: string, ts: seq<Token>, s: string)
    requires |ts| == |lit| + 1 && ts[0] == Star
    requires forall i :: 0 <= i < |lit| ==> ts[i + 1] == Lit(lit[i])
    ensures GlobMatch(ts, s) <==> |lit| <= |s| && s[|s| - |lit|..] == lit && '/' !in s[..|s| - |lit|]
    decreases |s|
  {
    LiteralTokensMatch(lit, ts[1..], s);
    if |s| > 0 {
      StarThenLiteralTokens(lit, ts, s[1..]);
      if |lit| < |s| {
        assert s[1..][|s| - 1 - |lit|..] == s[|s| - |lit|..];
        assert s[..|s| - |lit|] == [s[0]] + s[1..][..|s| - 1 - |lit|];
      } else if |lit| == |s| {
        assert s[..0] == [];
        assert s[0..] == s;
      }
    }
  }

  /** `*` followed by a literal matches exactly the names that end with the
      literal and have no '/' before it. */
  lemma StarThenLiteral(lit: string, s: string)
    requires IsLiteral(lit)
    ensures Match("*" + lit, s) <==> |lit| <= |s| && s[|s| - |lit|..] == lit && '/' !in s[..|s| - |lit|]
  {
    var p := "*" + lit;
    assert p[1..] == lit;
    LiteralTokens(lit);
    var ts := [Star] + Tokenize(lit).value;
    assert Tokenize(p) == Some(ts);
    StarThenLiteralTokens(lit, ts, s);
  }

  /** `?` matches exactly one character other than '/'. */
  lemma QuestionMatchesOneChar(s: string)
    ensures Match("?", s) <==> |s| == 1 && s[0] != '/'
  {
    assert "?"[1..] == [];
    assert Tokenize([]) == Some([]);
    assert [AnyChar] + [] == [AnyChar];
    assert Tokenize("?") == Prepend(AnyChar, Tokenize([]));
    assert [AnyChar][1..] == [];
    assert GlobMatch([AnyChar], s) <==> |s| > 0 && s[0] != '/' && GlobMatch([], s[1..]);
  }

  /** An unterminated class is malformed and so never matches. */
  lemma UnclosedClassNeverMatches(s: string)
    ensures !Match("[invalid", s)
  {
    var body := "invalid";
    assert "[invalid"[1..] == body;
    assert ClassRanges(body, []) == None by {
      var t := body;
      assert ClassChar(t) == Some(('i', t[1..]));
      assert ClassChar(t[1..]) == Some(('n', t[2..]));
      assert ClassChar(t[2..]) == Some(('v', t[3..]));
      assert ClassChar(t[3..]) == Some(('a', t[4..]));
      assert ClassChar(t[4..]) == Some(('l', t[5..]));
      assert ClassChar(t[5..]) == Some(('i', t[6..]));
      assert ClassChar(t[6..]) == None;
    }
  }
}
