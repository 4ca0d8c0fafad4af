/**
 * A worked search over a small tree: `root/a.txt` holds "hello world",
 * `root/sub/b.txt` holds "HELLO" and `root/sub/c.log` holds "nothing".
 */
module Scenario {
  import opened Wrappers
  import opened Matcher
  import opened FileTree

  function A(): Node { File("root/a.txt", Some([Some("hello world")])) }
  function B(): Node { File("root/sub/b.txt", Some([Some("HELLO")])) }
  function C(): Node { File("root/sub/c.log", Some([Some("nothing")])) }
  function Sub(): Node { Dir("root/sub", Listed([Some(B()), Some(C())])) }
  function Root(): Node { Dir("root", Listed([Some(A()), Some(Sub())])) }

  /** A file of one line matches exactly when that line does. */
  lemma OneLineFile(line: string, query: string, matchCase: bool)
    ensures FileMatches(Some([Some(line)]), query, matchCase) == LineMatches(Some(line), query, matchCase)
  {
    var lines: seq<Line> := [Some(line)];
    assert lines[0] == Some(line) && lines[1..] == [];
    assert !AnyLineMatches(lines[1..], query, matchCase);
    assert FileMatches(Some(lines), query, matchCase) == AnyLineMatches(lines, query, matchCase);
  }

  lemma LowerHello()
    ensures Normalize("hello", false) == "hello"
  {
    var r := ToAsciiLower("hello");
    assert r[0] == 'h' && r[1] == 'e' && r[2] == 'l' && r[3] == 'l' && r[4] == 'o';
  }

  lemma AMatches(matchCase: bool)
    ensures FileMatches(A().text, "hello", matchCase)
  {
    var world, hello := "hello world", "hello";
    assert hello <= world;
    assert forall i :: 0 <= i < |hello| ==> !IsAsciiUpper(hello[i]);
    FileStartingWithQuery(world, hello, matchCase);
  }

  /** A one-line file whose line starts with a query free of upper-case ASCII letters matches it. */
  lemma FileStartingWithQuery(line: string, query: string, matchCase: bool)
    requires query <= line
    requires forall i :: 0 <= i < |query| ==> !IsAsciiUpper(query[i])
    ensures FileMatches(Some([Some(line)]), query, matchCase)
  {
    OneLineFile(line, query, matchCase);
    LowerCaseStart(line, query, matchCase);
  }

  /** A line that starts with a query free of upper-case ASCII letters matches it, whatever the case mode. */
  lemma LowerCaseStart(line: string, query: string, matchCase: bool)
    requires query <= line
    requires forall i :: 0 <= i < |query| ==> !IsAsciiUpper(query[i])
    ensures LineMatches(Some(line), query, matchCase)
  {
    if !matchCase {
      var l := ToAsciiLower(line);
      LowerSlice(line, 0, |query|);
      assert line[..|query|] == query;
      assert ToAsciiLower(query) == query;
      assert l[..|query|] == query;
    }
  }

  lemma BMatchesOnlyIgnoringCase()
    ensures FileMatches(B().text, "hello", false) && !FileMatches(B().text, "hello", true)
  {
    OneLineFile("HELLO", "hello", false);
    OneLineFile("HELLO", "hello", true);
    HelloExample();
    LowerHello();
  }

  lemma CNeverMatches(matchCase: bool)
    ensures !FileMatches(C().text, "hello", matchCase)
  {
    OneLineFile("nothing", "hello", matchCase);
    var nothing := "nothing";
    assert Normalize(nothing, matchCase) == nothing by {
      var r := ToAsciiLower(nothing);
      assert r[0] == 'n' && r[1] == 'o' && r[2] == 't' && r[3] == 'h' && r[4] == 'i' && r[5] == 'n' && r[6] == 'g';
    }
    ContainsIff(nothing, "hello");
    forall k | 0 <= k <= 2 ensures !OccursAt(nothing, "hello", k) {
      assert nothing[k] != 'h';
      assert nothing[k..k + 5][0] == nothing[k];
    }
  }

  /** The walk from the root at depth 0: a.txt first, then whatever the visit of sub appends. */
  lemma RootUnfolds(o: Options)
    ensures Found(Root(), 0, o) == Found(A(), 1, o) + Found(Sub(), 1, o)
  {
    assert FoundInFirst(Root(), 1, 1, o) == Found(A(), 1, o);
  }

  lemma SubUnfolds(o: Options)
    ensures Found(Sub(), 1, o) == if o.recursive then Found(B(), 2, o) + Found(C(), 2, o) else []
  {
    if o.recursive {
      assert FoundInFirst(Sub(), 1, 2, o) == Found(B(), 2, o);
    }
  }

  /** Case-insensitive recursive search finds a.txt and sub/b.txt. */
  lemma RecursiveIgnoringCase()
    ensures Found(Root(), 0, Options(Normalize("hello", false), false, true)) == ["root/a.txt", "root/sub/b.txt"]
  {
    var o := Options(Normalize("hello", false), false, true);
    LowerHello();
    RootUnfolds(o);
    SubUnfolds(o);
    AMatches(false);
    BMatchesOnlyIgnoringCase();
    CNeverMatches(false);
  }

  /** Without recursion the same search finds a.txt only: sub is not entered. */
  lemma FlatIgnoringCase()
    ensures Found(Root(), 0, Options(Normalize("hello", false), false, false)) == ["root/a.txt"]
  {
    var o := Options(Normalize("hello", false), false, false);
    LowerHello();
    RootUnfolds(o);
    SubUnfolds(o);
    AMatches(false);
  }

  /** Matching case, only a.txt holds "hello"; b.txt holds "HELLO". */
  lemma RecursiveMatchingCase()
    ensures Found(Root(), 0, Options(Normalize("hello", true), true, true)) == ["root/a.txt"]
  {
    var o := Options(Normalize("hello", true), true, true);
    RootUnfolds(o);
    SubUnfolds(o);
    AMatches(true);
    BMatchesOnlyIgnoringCase();
    CNeverMatches(true);
  }
}
