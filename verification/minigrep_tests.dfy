/**
 * The two unit tests of the library, stated about the search specification
 * `Selected` (which `Search` and `SearchCaseInsensitive` are proved to compute).
 */
module MinigrepTests {
  import opened RustStr
  import opened Minigrep

  /** The text searched by test `one_result`. */
  const DuctTapeText: string := "Rust:\n" + "safe, fast, productive.\n" + "Pick three.\n" + "Duct tape."

  /** The text searched by test `case_insensitive`. */
  const TrustMeText: string := "Rust:\n" + "safe, fast, productive.\n" + "Pick three.\n" + "Trust me."

  lemma JoinAssoc(l1: string, l2: string, l3: string, last: string)
    ensures l1 + "\n" + l2 + "\n" + l3 + "\n" + last == l1 + "\n" + (l2 + "\n" + (l3 + "\n" + last))
  {
  }

  /** Three whole lines followed by a last line without a terminator split into those four lines. */
  lemma LinesOfFour(l1: string, l2: string, l3: string, last: string)
    requires IsLine(l1) && IsLine(l2) && IsLine(l3)
    requires last != [] && '\n' !in last
    ensures Lines(l1 + "\n" + l2 + "\n" + l3 + "\n" + last) == [l1, l2, l3, last]
  {
    var r3 := l3 + "\n" + last;
    var r2 := l2 + "\n" + r3;
    calc {
      Lines(l1 + "\n" + l2 + "\n" + l3 + "\n" + last);
      { JoinAssoc(l1, l2, l3, last); }
      Lines(l1 + "\n" + r2);
      { LinesOfPrefixed(l1, r2); }
      [l1] + Lines(r2);
      { LinesOfPrefixed(l2, r3); }
      [l1] + ([l2] + Lines(r3));
      { LinesOfPrefixed(l3, last); SingleLine(last); }
      [l1] + ([l2] + ([l3] + [last]));
      [l1, l2, l3, last];
    }
  }

  lemma DuctTapeLines()
    ensures Lines(DuctTapeText) == ["Rust:", "safe, fast, productive.", "Pick three.", "Duct tape."]
  {
    assert IsLine("Rust:") && IsLine("safe, fast, productive.") && IsLine("Pick three.");
    assert DuctTapeText == "Rust:" + "\n" + "safe, fast, productive." + "\n" + "Pick three." + "\n" + "Duct tape.";
    LinesOfFour("Rust:", "safe, fast, productive.", "Pick three.", "Duct tape.");
  }

  lemma TrustMeLines()
    ensures Lines(TrustMeText) == ["Rust:", "safe, fast, productive.", "Pick three.", "Trust me."]
  {
    assert IsLine("Rust:") && IsLine("safe, fast, productive.") && IsLine("Pick three.");
    assert TrustMeText == "Rust:" + "\n" + "safe, fast, productive." + "\n" + "Pick three." + "\n" + "Trust me.";
    LinesOfFour("Rust:", "safe, fast, productive.", "Pick three.", "Trust me.");
  }

  /** An occurrence shown character by character. */
  lemma OccursByChars(query: string, line: string, k: nat)
    requires k + |query| <= |line|
    requires forall m :: 0 <= m < |query| ==> line[k + m] == query[m]
    ensures IsSubstring(query, line)
  {
    assert line[k..k + |query|] == query;
    assert OccursAt(query, line, k);
  }

  /** No occurrence: nowhere in the line do the first two characters of the query follow each other. */
  lemma AbsentByFirstTwo(query: string, line: string)
    requires |query| >= 2
    requires forall k :: 0 <= k < |line| - 1 ==> line[k] != query[0] || line[k + 1] != query[1]
    ensures !IsSubstring(query, line)
  {
    forall k: nat ensures !OccursAt(query, line, k) {
      if k + |query| <= |line| {
        assert line[k..k + |query|][0] == line[k];
        assert line[k..k + |query|][1] == line[k + 1];
      }
    }
  }

  /** An occurrence, ignoring case, shown character by character. */
  lemma OccursIgnoringCaseByChars(query: string, line: string, k: nat)
    requires k + |query| <= |line|
    requires forall m :: 0 <= m < |query| ==> LowerChar(line[k + m]) == LowerChar(query[m])
    ensures IsSubstring(Lower(query), Lower(line))
  {
    OccursByChars(Lower(query), Lower(line), k);
  }

  /** No occurrence ignoring case, by the first two characters of the query. */
  lemma AbsentIgnoringCaseByFirstTwo(query: string, line: string)
    requires |query| >= 2
    requires forall k :: 0 <= k < |line| - 1 ==>
      LowerChar(line[k]) != LowerChar(query[0]) || LowerChar(line[k + 1]) != LowerChar(query[1])
    ensures !IsSubstring(Lower(query), Lower(line))
  {
    AbsentByFirstTwo(Lower(query), Lower(line));
  }

  /** Adding a line at the end adds it to the result exactly when it matches. */
  lemma SelectedSnoc(lines: seq<string>, last: string, query: string, ignoreCase: bool)
    ensures Selected(lines + [last], query, ignoreCase)
      == Selected(lines, query, ignoreCase) + (if Keeps(query, last, ignoreCase) then [last] else [])
  {
    assert (lines + [last])[..|lines|] == lines;
  }

  /** A search over four lines keeps each of them exactly when it matches, in order. */
  lemma SelectedOfFour(l1: string, l2: string, l3: string, l4: string, query: string, ignoreCase: bool)
    ensures Selected([l1, l2, l3, l4], query, ignoreCase)
      == (if Keeps(query, l1, ignoreCase) then [l1] else [])
       + (if Keeps(query, l2, ignoreCase) then [l2] else [])
       + (if Keeps(query, l3, ignoreCase) then [l3] else [])
       + (if Keeps(query, l4, ignoreCase) then [l4] else [])
  {
    SelectedSnoc([], l1, query, ignoreCase);
    assert [] + [l1] == [l1];
    SelectedSnoc([l1], l2, query, ignoreCase);
    assert [l1] + [l2] == [l1, l2];
    SelectedSnoc([l1, l2], l3, query, ignoreCase);
    assert [l1, l2] + [l3] == [l1, l2, l3];
    SelectedSnoc([l1, l2, l3], l4, query, ignoreCase);
    assert [l1, l2, l3] + [l4] == [l1, l2, l3, l4];
  }

  /** Which lines of the first test text contain "duct". */
  lemma DuctMatches()
    ensures !Keeps("duct", "Rust:", false)
    ensures Keeps("duct", "safe, fast, productive.", false)
    ensures !Keeps("duct", "Pick three.", false)
    ensures !Keeps("duct", "Duct tape.", false)
  {
    AbsentByFirstTwo("duct", "Rust:");
    OccursByChars("duct", "safe, fast, productive.", 15);
    AbsentByFirstTwo("duct", "Pick three.");
    AbsentByFirstTwo("duct", "Duct tape.");
  }

  /** Which lines of the second test text contain "rUsT", ignoring case. */
  lemma RustMatches()
    ensures Keeps("rUsT", "Rust:", true)
    ensures !Keeps("rUsT", "safe, fast, productive.", true)
    ensures !Keeps("rUsT", "Pick three.", true)
    ensures Keeps("rUsT", "Trust me.", true)
  {
    OccursIgnoringCaseByChars("rUsT", "Rust:", 0);
    AbsentIgnoringCaseByFirstTwo("rUsT", "safe, fast, productive.");
    AbsentIgnoringCaseByFirstTwo("rUsT", "Pick three.");
    OccursIgnoringCaseByChars("rUsT", "Trust me.", 1);
  }

  /** Test `one_result`: "duct" is found, case-sensitively, in one line only. */
  lemma OneResult()
    ensures Selected(Lines(DuctTapeText), "duct", false) == ["safe, fast, productive."]
  {
    DuctTapeLines();
    DuctMatches();
    SelectedOfFour("Rust:", "safe, fast, productive.", "Pick three.", "Duct tape.", "duct", false);
  }

  /** Test `case_insensitive`: "rUsT" is found, ignoring case, in two lines, returned as written. */
  lemma CaseInsensitiveResult()
    ensures Selected(Lines(TrustMeText), "rUsT", true) == ["Rust:", "Trust me."]
  {
    TrustMeLines();
    RustMatches();
    SelectedOfFour("Rust:", "safe, fast, productive.", "Pick three.", "Trust me.", "rUsT", true);
  }
}
