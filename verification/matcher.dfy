/**
 * The line matcher of the search: ASCII lower-casing, substring containment,
 * and the "does any successfully read line contain the query" test that
 * decides whether a scanned file is collected.
 */
module Matcher {
  import opened Wrappers

  /**
   * One line as the buffered line reader yields it: `None` when reading that
   * line failed once and the reader went on to the next line.
   */
  type Line = Option<string>

  /** What opening a file yields: `None` when the open failed, otherwise its lines in order. */
  type FileText = Option<seq<Line>>

  // ---------------------------------------------------------------------------
  // ASCII lower-casing (Rust's `to_ascii_lowercase`)
  // ---------------------------------------------------------------------------

  predicate IsAsciiUpper(c: char) { 'A' <= c <= 'Z' }

  predicate IsAsciiLower(c: char) { 'a' <= c <= 'z' }

  /** Maps 'A'..'Z' to 'a'..'z' and leaves every other character alone. */
  function LowerChar(c: char): char
  {
    if IsAsciiUpper(c) then (c as int + 32) as char else c
  }

  /** The string with every ASCII upper-case letter replaced by its lower-case letter. */
  function ToAsciiLower(s: string): (r: string)
    ensures |r| == |s|
    ensures forall i :: 0 <= i < |s| && !IsAsciiUpper(s[i]) ==> r[i] == s[i]
    ensures forall i :: 0 <= i < |s| && IsAsciiUpper(s[i]) ==> IsAsciiLower(r[i]) && r[i] as int == s[i] as int + 32
  {
    seq(|s|, i requires 0 <= i < |s| => LowerChar(s[i]))
  }

  /**
   * Lower-casing leaves non-ASCII characters unchanged and leaves no ASCII
   * upper-case letter behind.
   */
  lemma LowerKeepsOthers(s: string)
    ensures forall i :: 0 <= i < |s| && s[i] as int >= 128 ==> ToAsciiLower(s)[i] == s[i]
    ensures forall i :: 0 <= i < |s| ==> !IsAsciiUpper(ToAsciiLower(s)[i])
  {
  }

  /**
   * Two characters are equal up to ASCII case when they are the same or one is
   * the upper-case ASCII letter of the other (Rust's `eq_ignore_ascii_case`).
   */
  predicate SameIgnoringAsciiCase(x: char, y: char)
  {
    x == y
    || (IsAsciiUpper(x) && y as int == x as int + 32)
    || (IsAsciiUpper(y) && x as int == y as int + 32)
  }

  predicate EqualIgnoringAsciiCase(a: string, b: string)
  {
    |a| == |b| && forall i :: 0 <= i < |a| ==> SameIgnoringAsciiCase(a[i], b[i])
  }

  /** Lower-casing twice is lower-casing once. */
  lemma LowerIdempotent(s: string)
    ensures ToAsciiLower(ToAsciiLower(s)) == ToAsciiLower(s)
  {
    var r := ToAsciiLower(s);
    var rr := ToAsciiLower(r);
    forall i | 0 <= i < |s| ensures rr[i] == r[i] {
      assert !IsAsciiUpper(r[i]);
    }
  }

  /** Lower-casing commutes with taking a slice. */
  lemma LowerSlice(s: string, lo: nat, hi: nat)
    requires lo <= hi <= |s|
    ensures ToAsciiLower(s)[lo..hi] == ToAsciiLower(s[lo..hi])
  {
    var whole, sub := ToAsciiLower(s), s[lo..hi];
    var part := ToAsciiLower(sub);
    assert forall i :: 0 <= i < hi - lo ==> sub[i] == s[lo + i];
    assert forall i :: 0 <= i < hi - lo ==> part[i] == whole[lo + i];
    assert whole[lo..hi] == part;
  }

  /** Two strings lower-case to the same string exactly when they are equal up to ASCII case. */
  lemma LowerEqualIff(a: string, b: string)
    ensures ToAsciiLower(a) == ToAsciiLower(b) <==> EqualIgnoringAsciiCase(a, b)
  {
    var la, lb := ToAsciiLower(a), ToAsciiLower(b);
    if la == lb {
      forall i | 0 <= i < |a| ensures SameIgnoringAsciiCase(a[i], b[i]) {
        assert la[i] == lb[i];
      }
    }
    if EqualIgnoringAsciiCase(a, b) {
      forall i | 0 <= i < |a| ensures la[i] == lb[i] {
        assert SameIgnoringAsciiCase(a[i], b[i]);
      }
    }
  }

  // ---------------------------------------------------------------------------
  // Substring containment (Rust's `str::contains` with a string pattern)
  // ---------------------------------------------------------------------------

  /** `needle` occurs in `s` starting at position `k`. */
  ghost predicate OccursAt(s: string, needle: string, k: int)
  {
    0 <= k && k + |needle| <= |s| && s[k..k + |needle|] == needle
  }

  /** `needle` occurs in `s` starting at position `k`, up to ASCII case. */
  ghost predicate OccursIgnoringCaseAt(s: string, needle: string, k: int)
  {
    0 <= k && k + |needle| <= |s| && EqualIgnoringAsciiCase(s[k..k + |needle|], needle)
  }

  /** Tries `needle` as a prefix of `s`, then of `s` without its first character, and so on. */
  predicate Contains(s: string, needle: string)
    ensures needle <= s ==> Contains(s, needle)
    ensures Contains(s, needle) ==> |needle| <= |s|
    decreases |s|
  {
    needle <= s || (|s| > 0 && Contains(s[1..], needle))
  }

  /** `Contains` holds exactly when the needle occurs at some position (the empty needle always does). */
  lemma {:induction false} ContainsIff(s: string, needle: string)
    ensures Contains(s, needle) <==> exists k :: OccursAt(s, needle, k)
    decreases |s|
  {
    assert OccursAt(s, needle, 0) <==> needle <= s;
    if needle <= s {
    } else if |s| > 0 {
      ContainsIff(s[1..], needle);
      if Contains(s[1..], needle) {
        var k :| OccursAt(s[1..], needle, k);
        assert s[1..][k..k + |needle|] == s[k + 1..k + 1 + |needle|];
        assert OccursAt(s, needle, k + 1);
      }
      forall k | 0 < k && OccursAt(s, needle, k) ensures OccursAt(s[1..], needle, k - 1) {
        assert s[1..][k - 1..k - 1 + |needle|] == s[k..k + |needle|];
      }
    } else {
      assert forall k :: OccursAt(s, needle, k) ==> k == 0;
    }
  }

  // ---------------------------------------------------------------------------
  // Query normalisation and the line / file match
  // ---------------------------------------------------------------------------

  /** The text compared: unchanged when the case must match, ASCII-lower-cased otherwise. */
  function Normalize(s: string, matchCase: bool): (r: string)
    ensures |r| == |s|
    ensures matchCase ==> r == s
    ensures !matchCase ==> forall i :: 0 <= i < |r| ==> !IsAsciiUpper(r[i])
  {
    if matchCase then s else ToAsciiLower(s)
  }

  /** A line matches when it was read and, normalised, contains the (already normalised) query. */
  predicate LineMatches(line: Line, query: string, matchCase: bool)
    ensures line.None? ==> !LineMatches(line, query, matchCase)
    ensures LineMatches(line, query, matchCase) ==> |query| <= |line.value|
  {
    line.Some? && Contains(Normalize(line.value, matchCase), query)
  }

  /** Some line matches: the lines are tried in order and the first match decides. */
  predicate AnyLineMatches(lines: seq<Line>, query: string, matchCase: bool)
    ensures AnyLineMatches(lines, query, matchCase) ==>
              exists i :: 0 <= i < |lines| && LineMatches(lines[i], query, matchCase)
  {
    |lines| > 0 && (LineMatches(lines[0], query, matchCase) || AnyLineMatches(lines[1..], query, matchCase))
  }

  /** A file matches when it could be opened and some line of it matches. */
  predicate FileMatches(text: FileText, query: string, matchCase: bool)
    ensures text.None? ==> !FileMatches(text, query, matchCase)
    ensures FileMatches(text, query, matchCase) ==> |text.value| > 0
  {
    text.Some? && AnyLineMatches(text.value, query, matchCase)
  }

  /** `AnyLineMatches` is "there is a matching line". */
  lemma {:induction false} AnyLineMatchesIff(lines: seq<Line>, query: string, matchCase: bool)
    ensures AnyLineMatches(lines, query, matchCase) <==>
            exists i :: 0 <= i < |lines| && LineMatches(lines[i], query, matchCase)
  {
    if |lines| > 0 {
      AnyLineMatchesIff(lines[1..], query, matchCase);
      if i :| 0 <= i < |lines| && LineMatches(lines[i], query, matchCase) {
        if i > 0 {
          assert lines[1..][i - 1] == lines[i];
        }
      }
      if AnyLineMatches(lines[1..], query, matchCase) && !LineMatches(lines[0], query, matchCase) {
        var j :| 0 <= j < |lines[1..]| && LineMatches(lines[1..][j], query, matchCase);
        assert lines[j + 1] == lines[1..][j];
      }
    }
  }

  /** Matching over two runs of lines is matching over either run. */
  lemma {:induction false} AnyLineMatchesAppend(a: seq<Line>, b: seq<Line>, query: string, matchCase: bool)
    ensures AnyLineMatches(a + b, query, matchCase) <==>
            AnyLineMatches(a, query, matchCase) || AnyLineMatches(b, query, matchCase)
    decreases |a|
  {
    if |a| > 0 {
      assert (a + b)[0] == a[0];
      assert (a + b)[1..] == a[1..] + b;
      AnyLineMatchesAppend(a[1..], b, query, matchCase);
    } else {
      assert a + b == b;
    }
  }

  /**
   * Short-circuit: once some line up to and including line `i` matches, the
   * lines that would follow it do not change the outcome.
   */
  lemma ShortCircuit(lines: seq<Line>, i: nat, rest: seq<Line>, query: string, matchCase: bool)
    requires i < |lines| && LineMatches(lines[i], query, matchCase)
    ensures AnyLineMatches(lines[..i + 1] + rest, query, matchCase)
    ensures AnyLineMatches(lines, query, matchCase)
  {
    AnyLineMatchesIff(lines[..i + 1], query, matchCase);
    assert lines[..i + 1][i] == lines[i];
    AnyLineMatchesAppend(lines[..i + 1], rest, query, matchCase);
    AnyLineMatchesIff(lines, query, matchCase);
  }

  /** A line that failed to read can be dropped without changing the outcome. */
  lemma UnreadableLineIgnored(a: seq<Line>, b: seq<Line>, query: string, matchCase: bool)
    ensures AnyLineMatches(a + [None] + b, query, matchCase) == AnyLineMatches(a + b, query, matchCase)
  {
    AnyLineMatchesAppend(a + [None], b, query, matchCase);
    AnyLineMatchesAppend(a, [None], query, matchCase);
    AnyLineMatchesAppend(a, b, query, matchCase);
    var gap: seq<Line> := [None];
    assert !AnyLineMatches(gap, query, matchCase) by {
      assert gap[1..] == [];
    }
  }

  /**
   * A file is collected exactly when it could be opened and some line of it was
   * read and, normalised, holds the normalised query at some position.
   */
  lemma FileMatchesIff(text: FileText, rawQuery: string, matchCase: bool)
    ensures FileMatches(text, Normalize(rawQuery, matchCase), matchCase) <==>
            text.Some? &&
            exists i :: 0 <= i < |text.value| && text.value[i].Some? &&
              exists k :: OccursAt(Normalize(text.value[i].value, matchCase), Normalize(rawQuery, matchCase), k)
  {
    var q := Normalize(rawQuery, matchCase);
    if text.Some? {
      var lines := text.value;
      AnyLineMatchesIff(lines, q, matchCase);
      forall i | 0 <= i < |lines| && lines[i].Some?
        ensures LineMatches(lines[i], q, matchCase) <==>
                exists k :: OccursAt(Normalize(lines[i].value, matchCase), q, k)
      {
        ContainsIff(Normalize(lines[i].value, matchCase), q);
      }
    }
  }

  /**
   * Without case matching a line matches exactly when some stretch of it
   * equals the raw query up to ASCII case.
   */
  lemma CaseInsensitiveMatch(line: string, rawQuery: string)
    ensures LineMatches(Some(line), Normalize(rawQuery, false), false) <==>
            exists k :: OccursIgnoringCaseAt(line, rawQuery, k)
  {
    var l, q := ToAsciiLower(line), ToAsciiLower(rawQuery);
    ContainsIff(l, q);
    assert LineMatches(Some(line), Normalize(rawQuery, false), false) == Contains(l, q);
    if k :| OccursAt(l, q, k) {
      LowerSlice(line, k, k + |q|);
      LowerEqualIff(line[k..k + |rawQuery|], rawQuery);
      assert OccursIgnoringCaseAt(line, rawQuery, k);
    }
    if k :| OccursIgnoringCaseAt(line, rawQuery, k) {
      LowerSlice(line, k, k + |q|);
      LowerEqualIff(line[k..k + |rawQuery|], rawQuery);
      assert OccursAt(l, q, k);
    }
  }

  /** Without case matching, lines and queries that differ only in ASCII case give the same outcome. */
  lemma CaseInsensitiveInvariance(l1: string, l2: string, q1: string, q2: string)
    requires EqualIgnoringAsciiCase(l1, l2) && EqualIgnoringAsciiCase(q1, q2)
    ensures LineMatches(Some(l1), Normalize(q1, false), false) == LineMatches(Some(l2), Normalize(q2, false), false)
  {
    LowerEqualIff(l1, l2);
    LowerEqualIff(q1, q2);
  }

  /** "HELLO" and "hello" find each other without case matching, and not with it. */
  lemma HelloExample()
    ensures LineMatches(Some("HELLO"), Normalize("hello", false), false)
    ensures LineMatches(Some("hello world"), Normalize("HELLO", false), false)
    ensures !LineMatches(Some("HELLO"), Normalize("hello", true), true)
  {
    var upper, lower, world := "HELLO", "hello", "hello world";
    assert ToAsciiLower(upper) == lower by {
      var r := ToAsciiLower(upper);
      assert r[0] == 'h' && r[1] == 'e' && r[2] == 'l' && r[3] == 'l' && r[4] == 'o';
    }
    assert lower <= ToAsciiLower(lower);
    assert lower <= ToAsciiLower(world) by {
      var r := ToAsciiLower(world);
      assert r[0] == 'h' && r[1] == 'e' && r[2] == 'l' && r[3] == 'l' && r[4] == 'o';
    }
    assert !(lower <= upper) by {
      assert upper[0] != lower[0];
    }
    assert !Contains(upper[1..], lower) by {
      ContainsIff(upper[1..], lower);
    }
  }

  /**
   * Reads the lines of an opened file one after another and stops at the first
   * line that matches; `read` is the number of lines consumed.
   */
  method ScanLines(text: FileText, query: string, matchCase: bool) returns (found: bool, read: nat)
    ensures found == FileMatches(text, query, matchCase)
    ensures text.None? ==> read == 0
    ensures text.Some? && found ==>
              0 < read <= |text.value| && LineMatches(text.value[read - 1], query, matchCase) &&
              !AnyLineMatches(text.value[..read - 1], query, matchCase)
    ensures text.Some? && !found ==> read == |text.value|
  {
    found, read := false, 0;
    if text.None? {
      return;
    }
    var lines := text.value;
    while read < |lines|
      invariant read <= |lines|
      invariant !AnyLineMatches(lines[..read], query, matchCase)
    {
      var line := lines[read];
      var hit := false;
      if line.Some? {
        var l := line.value;
        if !matchCase {
          l := ToAsciiLower(l);
        }
        hit := Contains(l, query);
      }
      AnyLineMatchesAppend(lines[..read], [line], query, matchCase);
      assert lines[..read + 1] == lines[..read] + [line];
      read := read + 1;
      if hit {
        found := true;
        assert lines[..read] + lines[read..] == lines;
        AnyLineMatchesAppend(lines[..read], lines[read..], query, matchCase);
        return;
      }
    }
    assert lines[..read] == lines;
  }
}
