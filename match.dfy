/** The "does any pattern match" test the writer uses for exclusion and the
    extractor uses for inclusion: each glob is tried against the base name of
    the path only, and a malformed glob counts as no match. */
module Matcher {

  import opened Paths
  import opened Glob

  /** matchesAny(name, patterns). */
  predicate MatchesAny(name: string, patterns: seq<string>) {
    exists i :: 0 <= i < |patterns| && Match(patterns[i], Base(name))
  }

  /** The source's loop: try the first pattern, and only if it does not match
      (or is malformed) go on with the rest. */
  lemma MatchesAnyFirstThenRest(name: string, p: string, rest: seq<string>)
    ensures MatchesAny(name, [p] + rest) <==> Match(p, Base(name)) || MatchesAny(name, rest)
  {
    var ps := [p] + rest;
    assert ps[0] == p;
    if MatchesAny(name, rest) {
      var i :| 0 <= i < |rest| && Match(rest[i], Base(name));
      assert ps[i + 1] == rest[i];
    }
    if MatchesAny(name, ps) {
      var i :| 0 <= i < |ps| && Match(ps[i], Base(name));
      if i > 0 { assert rest[i - 1] == ps[i]; }
    }
  }

  /** No patterns never match. */
  lemma NoPatternsNeverMatch(name: string)
    ensures !MatchesAny(name, [])
  {
  }

  /** Appending patterns can only add matches; a match in either list is a match
      of the concatenation. */
  lemma MatchesAnyConcat(name: string, ps: seq<string>, qs: seq<string>)
    ensures MatchesAny(name, ps + qs) <==> MatchesAny(name, ps) || MatchesAny(name, qs)
  {
    var all := ps + qs;
    if MatchesAny(name, ps) {
      var i :| 0 <= i < |ps| && Match(ps[i], Base(name));
      assert all[i] == ps[i];
    }
    if MatchesAny(name, qs) {
      var i :| 0 <= i < |qs| && Match(qs[i], Base(name));
      assert all[|ps| + i] == qs[i];
    }
    if MatchesAny(name, all) {
      var i :| 0 <= i < |all| && Match(all[i], Base(name));
      if i < |ps| { assert ps[i] == all[i]; } else { assert qs[i - |ps|] == all[i]; }
    }
  }

  /** Only which patterns are present matters, not their order or repetition. */
  lemma MatchesAnyOrderIrrelevant(name: string, ps: seq<string>, qs: seq<string>)
    requires forall p :: p in ps <==> p in qs
    ensures MatchesAny(name, ps) <==> MatchesAny(name, qs)
  {
    if MatchesAny(name, ps) {
      var i :| 0 <= i < |ps| && Match(ps[i], Base(name));
      assert ps[i] in qs;
      var j :| 0 <= j < |qs| && qs[j] == ps[i];
    }
    if MatchesAny(name, qs) {
      var j :| 0 <= j < |qs| && Match(qs[j], Base(name));
      assert qs[j] in ps;
      var i :| 0 <= i < |ps| && ps[i] == qs[j];
    }
  }

  /** A malformed pattern contributes nothing, wherever it stands. */
  lemma MalformedPatternIgnored(name: string, ps: seq<string>, bad: string, qs: seq<string>)
    requires Tokenize(bad).None?
    ensures MatchesAny(name, ps + [bad] + qs) <==> MatchesAny(name, ps + qs)
  {
    MatchesAnyConcat(name, ps + [bad], qs);
    MatchesAnyConcat(name, ps, [bad]);
    MatchesAnyConcat(name, ps, qs);
  }

  /** Only the final path element is tested. */
  lemma MatchesBaseNameOnly(dir: string, name: string, patterns: seq<string>)
    requires IsName(name)
    ensures MatchesAny(dir + "/" + name, patterns) <==> MatchesAny(name, patterns)
  {
    BaseOfName(dir, name);
    BaseOfName("", name);
    assert Base(name) == Base("" + "/" + name) by {
      BaseIdempotent("/" + name);
    }
  }

  lemma BaseOfFile()
    ensures Base("foo.txt") == "foo.txt"
  {
    BaseOfPlainName("foo.txt");
  }

  lemma BaseOfNested()
    ensures Base("dir/foo.txt") == "foo.txt"
  {
    assert "dir/foo.txt" == "dir" + "/" + "foo.txt";
    BaseOfName("dir", "foo.txt");
  }

  lemma BaseOfGo()
    ensures Base("foo.go") == "foo.go"
  {
    BaseOfPlainName("foo.go");
  }

  lemma BaseOfRs()
    ensures Base("foo.rs") == "foo.rs"
  {
    BaseOfPlainName("foo.rs");
  }

  lemma StarTxtMatchesTxt()
    ensures Match("*.txt", "foo.txt")
  {
    assert "*.txt" == "*" + ".txt";
    StarThenLiteral(".txt", "foo.txt");
    assert "foo.txt"[3..] == ".txt" && "foo.txt"[..3] == "foo";
  }

  lemma StarTxtRejectsGo()
    ensures !Match("*.txt", "foo.go")
  {
    assert "*.txt" == "*" + ".txt";
    StarThenLiteral(".txt", "foo.go");
    assert "foo.go"[2..][0] == 'o' != '.' == ".txt"[0];
  }

  lemma StarTxtRejectsRs()
    ensures !Match("*.txt", "foo.rs")
  {
    assert "*.txt" == "*" + ".txt";
    StarThenLiteral(".txt", "foo.rs");
    assert "foo.rs"[2..][0] == 'o' != '.' == ".txt"[0];
  }

  lemma StarGoMatchesGo()
    ensures Match("*.go", "foo.go")
  {
    assert "*.go" == "*" + ".go";
    StarThenLiteral(".go", "foo.go");
    assert "foo.go"[3..] == ".go" && "foo.go"[..3] == "foo";
  }

  lemma StarGoRejectsTxt()
    ensures !Match("*.go", "foo.txt")
  {
    assert "*.go" == "*" + ".go";
    StarThenLiteral(".go", "foo.txt");
    assert "foo.txt"[4..][0] == 't' != '.' == ".go"[0];
  }

  lemma StarGoRejectsRs()
    ensures !Match("*.go", "foo.rs")
  {
    assert "*.go" == "*" + ".go";
    StarThenLiteral(".go", "foo.rs");
    assert "foo.rs"[3..][1] == 'r' != 'g' == ".go"[1];
  }

  lemma QuestionExample()
    ensures Match("fo?.txt", "foo.txt")
  {
    var rest := ".txt";
    assert "fo?.txt"[3..] == rest && "foo.txt"[3..] == rest;
    LiteralMatchesOnlyItself(rest, rest);
    var ts := [Lit('f'), Lit('o'), AnyChar] + Tokenize(rest).value;
    assert Tokenize("fo?.txt").Some? && Tokenize("fo?.txt").value == ts;
    assert ts[3..] == Tokenize(rest).value;
  }

  /** A one-pattern list matches exactly when its pattern does. */
  lemma OnePattern(name: string, p: string)
    ensures MatchesAny(name, [p]) <==> Match(p, Base(name))
  {
    assert [p][0] == p;
  }

  /** A two-pattern list matches exactly when one of its patterns does. */
  lemma TwoPatterns(name: string, p: string, q: string)
    ensures MatchesAny(name, [p, q]) <==> Match(p, Base(name)) || Match(q, Base(name))
  {
    assert [p, q][0] == p && [p, q][1] == q;
  }

  // The rows of the source's table, one lemma each.

  lemma ExactNameMatches()
    ensures MatchesAny("foo.txt", ["foo.txt"])
  {
    OnePattern("foo.txt", "foo.txt");
    BaseOfFile();
    LiteralMatchesOnlyItself("foo.txt", "foo.txt");
  }

  lemma GlobMatches()
    ensures MatchesAny("foo.txt", ["*.txt"])
  {
    OnePattern("foo.txt", "*.txt");
    BaseOfFile();
    StarTxtMatchesTxt();
  }

  lemma OtherGlobMisses()
    ensures !MatchesAny("foo.txt", ["*.go"])
  {
    OnePattern("foo.txt", "*.go");
    BaseOfFile();
    StarGoRejectsTxt();
  }

  lemma FirstOfTwoMatches()
    ensures MatchesAny("foo.txt", ["*.txt", "*.go"])
  {
    TwoPatterns("foo.txt", "*.txt", "*.go");
    BaseOfFile();
    StarTxtMatchesTxt();
  }

  lemma SecondOfTwoMatches()
    ensures MatchesAny("foo.go", ["*.txt", "*.go"])
  {
    TwoPatterns("foo.go", "*.txt", "*.go");
    BaseOfGo();
    StarGoMatchesGo();
  }

  lemma NoneOfTwoMatches()
    ensures !MatchesAny("foo.rs", ["*.txt", "*.go"])
  {
    TwoPatterns("foo.rs", "*.txt", "*.go");
    BaseOfRs();
    StarTxtRejectsRs();
    StarGoRejectsRs();
  }

  lemma NestedPathUsesBaseName()
    ensures MatchesAny("dir/foo.txt", ["*.txt"])
  {
    OnePattern("dir/foo.txt", "*.txt");
    BaseOfNested();
    StarTxtMatchesTxt();
  }

  lemma InvalidPatternIgnored()
    ensures !MatchesAny("foo.txt", ["[invalid"])
  {
    OnePattern("foo.txt", "[invalid");
    UnclosedClassNeverMatches(Base("foo.txt"));
  }

  lemma QuestionMarkMatches()
    ensures MatchesAny("foo.txt", ["fo?.txt"])
  {
    OnePattern("foo.txt", "fo?.txt");
    BaseOfFile();
    QuestionExample();
  }
}
