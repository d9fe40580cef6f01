/**
 * Models of the three operations of Rust's `str` that the line matcher relies on:
 * `str::lines`, `str::contains` with a string pattern, and `str::to_lowercase`
 * (restricted to the ASCII letters).
 */
module RustStr {

  /* ---------------------------------------------------------------------------
   * str::lines
   * ------------------------------------------------------------------------- */

  /** Index of the first '\n' in `s`, or `|s|` when there is none. */
  function NewlineIndex(s: string): (i: nat)
    ensures i <= |s|
    ensures i < |s| ==> s[i] == '\n'
  {
    if s == [] then 0
    else if s[0] == '\n' then 0
    else 1 + NewlineIndex(s[1..])
  }

  /** No '\n' comes before the one `NewlineIndex` finds. */
  lemma {:induction false} NewlineIndexIsFirst(s: string)
    ensures forall k :: 0 <= k < NewlineIndex(s) ==> s[k] != '\n'
  {
    if s != [] && s[0] != '\n' {
      NewlineIndexIsFirst(s[1..]);
      forall k | 1 <= k < NewlineIndex(s) ensures s[k] != '\n' {
        assert s[1..][k - 1] == s[k];
      }
    }
  }

  /** Removes one '\r' from the end of a line, if there is one. */
  function StripCr(line: string): (r: string)
    ensures |line| > 0 && line[|line| - 1] == '\r' ==> line == r + ['\r']
    ensures !(|line| > 0 && line[|line| - 1] == '\r') ==> r == line
  {
    if |line| > 0 && line[|line| - 1] == '\r' then line[..|line| - 1] else line
  }

  /** A line as `lines` can produce it: no '\n' inside, no '\r' at its end. */
  predicate IsLine(line: string)
  {
    '\n' !in line && !(|line| > 0 && line[|line| - 1] == '\r')
  }

  /**
   * `str::lines`: the text is cut after every '\n'; each piece that ended in
   * '\n' loses it and then loses one '\r' before it, if any; a last piece with
   * no '\n' is kept as it is (so a bare '\r' at the very end stays). A final
   * '\n' does not start an empty last line, and the empty text has no lines.
   */
  function Lines(s: string): (ls: seq<string>)
    ensures s == [] <==> ls == []
    decreases |s|
  {
    if s == [] then []
    else
      var i := NewlineIndex(s);
      if i == |s| then [s]
      else [StripCr(s[..i])] + Lines(s[i + 1..])
  }

  /** The inverse direction: every line followed by a '\n'. */
  function Unlines(ls: seq<string>): (s: string)
  {
    if ls == [] then [] else ls[0] + "\n" + Unlines(ls[1..])
  }

  lemma NewlineIndexOfPrefixed(line: string, rest: string)
    requires '\n' !in line
    ensures NewlineIndex(line + "\n" + rest) == |line|
  {
    var s := line + "\n" + rest;
    NewlineIndexIsFirst(s);
    assert s[|line|] == '\n';
    assert forall k :: 0 <= k < |line| ==> s[k] == line[k];
  }

  /** A line followed by '\n' is split off whole from the text that follows it. */
  lemma LinesOfPrefixed(line: string, rest: string)
    requires IsLine(line)
    ensures Lines(line + "\n" + rest) == [line] + Lines(rest)
  {
    var s := line + "\n" + rest;
    NewlineIndexOfPrefixed(line, rest);
    assert s[..|line|] == line;
    assert s[|line| + 1..] == rest;
  }

  /** Splitting text that starts with whole lines gives those lines back first. */
  lemma {:induction false} LinesOfUnlines(ls: seq<string>, tail: string)
    requires forall j :: 0 <= j < |ls| ==> IsLine(ls[j])
    ensures Lines(Unlines(ls) + tail) == ls + Lines(tail)
  {
    if ls != [] {
      var rest := Unlines(ls[1..]) + tail;
      LinesOfUnlines(ls[1..], tail);
      UnlinesAppend(ls, tail);
      LinesOfPrefixed(ls[0], rest);
      ConcatAssoc([ls[0]], ls[1..], Lines(tail));
      assert [ls[0]] + ls[1..] == ls;
    } else {
      assert Unlines(ls) + tail == tail;
    }
  }

  lemma ConcatAssoc<T>(a: seq<T>, b: seq<T>, c: seq<T>)
    ensures a + (b + c) == a + b + c
  {
  }

  lemma UnlinesAppend(ls: seq<string>, tail: string)
    requires ls != []
    ensures Unlines(ls) + tail == ls[0] + "\n" + (Unlines(ls[1..]) + tail)
  {
    var u := Unlines(ls[1..]);
    assert Unlines(ls) == ls[0] + "\n" + u;
  }

  /** Round trip: joining lines with '\n' terminators and splitting again is the identity. */
  lemma LinesUnlinesRoundTrip(ls: seq<string>)
    requires forall j :: 0 <= j < |ls| ==> IsLine(ls[j])
    ensures Lines(Unlines(ls)) == ls
  {
    LinesOfUnlines(ls, []);
    assert Unlines(ls) + [] == Unlines(ls);
  }

  /** A line that does not end in '\r' is left as it is. */
  lemma StripCrKeeps(line: string)
    requires line == [] || line[|line| - 1] != '\r'
    ensures StripCr(line) == line
  {
  }

  /** Text whose first '\n', at `i`, has no '\r' before it starts with the line before that '\n'. */
  lemma LinesOfTerminated(s: string, i: nat)
    requires i == NewlineIndex(s) && i < |s|
    requires i == 0 || s[i - 1] != '\r'
    ensures Lines(s) == [s[..i]] + Lines(s[i + 1..])
  {
    StripCrKeeps(s[..i]);
    if i > 0 { assert s[..i][i - 1] == s[i - 1]; }
  }

  /**
   * Round trip the other way: text that is empty or ends in '\n', and has no
   * '\r' directly before a '\n', is rebuilt exactly from its lines.
   */
  lemma {:induction false} UnlinesLinesRoundTrip(s: string)
    requires forall k :: 0 < k < |s| && s[k] == '\n' ==> s[k - 1] != '\r'
    requires s == [] || s[|s| - 1] == '\n'
    ensures Unlines(Lines(s)) == s
    decreases |s|
  {
    if s != [] {
      var i := NewlineIndex(s);
      NewlineIndexIsFirst(s);
      var rest := s[i + 1..];
      LinesOfTerminated(s, i);
      assert rest == [] || rest[|rest| - 1] == '\n' by {
        if rest != [] { assert rest[|rest| - 1] == s[|s| - 1]; }
      }
      assert forall k :: 0 < k < |rest| && rest[k] == '\n' ==> rest[k - 1] != '\r' by {
        forall k | 0 < k < |rest| && rest[k] == '\n' ensures rest[k - 1] != '\r' {
          assert rest[k] == s[i + 1 + k] && rest[k - 1] == s[i + k];
        }
      }
      UnlinesLinesRoundTrip(rest);
      UnlinesCons(s[..i], Lines(rest));
      SplitAtNewline(s, i);
    }
  }

  /**
   * A piece followed by "\r\n" is split off without that one '\r'; a '\r'
   * at the end of the piece itself stays.
   */
  lemma LinesOfCrlf(line: string, rest: string)
    requires '\n' !in line
    ensures Lines(line + "\r\n" + rest) == [line] + Lines(rest)
  {
    var s := line + "\r\n" + rest;
    var piece := line + "\r";
    assert s == piece + "\n" + rest;
    NewlineIndexOfPrefixed(piece, rest);
    assert s[..|piece|] == piece;
    assert s[|piece| + 1..] == rest;
    assert StripCr(piece) == line;
  }

  /** Only one '\r' goes with a '\n': "a\r\r\n" is the single line "a\r". */
  lemma OneCrDropped()
    ensures Lines("a\r\r\n") == ["a\r"]
  {
    LinesOfCrlf("a\r", "");
    assert "a\r" + "\r\n" + "" == "a\r\r\n";
  }

  lemma UnlinesCons(line: string, ls: seq<string>)
    ensures Unlines([line] + ls) == line + "\n" + Unlines(ls)
  {
    assert ([line] + ls)[1..] == ls;
  }

  lemma SplitAtNewline(s: string, i: nat)
    requires i < |s| && s[i] == '\n'
    ensures s == s[..i] + "\n" + s[i + 1..]
  {
    assert s == s[..i] + [s[i]] + s[i + 1..];
  }

  /** A non-empty text with no '\n' is a single line, kept as it is. */
  lemma SingleLine(s: string)
    requires s != [] && '\n' !in s
    ensures Lines(s) == [s]
  {
  }

  /* ---------------------------------------------------------------------------
   * str::contains
   * ------------------------------------------------------------------------- */

  /** `query` occurs in `line` starting at offset `k`. */
  ghost predicate OccursAt(query: string, line: string, k: nat)
  {
    k + |query| <= |line| && line[k..k + |query|] == query
  }

  /** `query` is a substring of `line`: it occurs at some offset. */
  ghost predicate IsSubstring(query: string, line: string)
  {
    exists k: nat :: OccursAt(query, line, k)
  }

  /** Whether `query` occurs in `line` at some offset at or after `from`. */
  function ContainsFrom(line: string, query: string, from: nat): (b: bool)
    ensures b <==> exists k: nat :: from <= k && OccursAt(query, line, k)
    decreases |line| - from
  {
    if from + |query| > |line| then false
    else if line[from..from + |query|] == query then
      assert OccursAt(query, line, from);
      true
    else
      var b := ContainsFrom(line, query, from + 1);
      assert b <== exists k: nat :: from <= k && OccursAt(query, line, k) by {
        if exists k: nat :: from <= k && OccursAt(query, line, k) {
          var k: nat :| from <= k && OccursAt(query, line, k);
          assert k != from;
        }
      }
      b
  }

  /** `str::contains`: whether `query` is a substring of `line`. */
  function Contains(line: string, query: string): (b: bool)
    ensures b <==> IsSubstring(query, line)
  {
    ContainsFrom(line, query, 0)
  }

  /** The empty query is a substring of every line, the empty one included. */
  lemma EmptyIsSubstring(line: string)
    ensures IsSubstring("", line)
  {
    assert OccursAt("", line, 0);
  }

  /* ---------------------------------------------------------------------------
   * str::to_lowercase, ASCII letters only
   * ------------------------------------------------------------------------- */

  /** Lowercase of one character: 'A'..'Z' map to 'a'..'z', all else is unchanged. */
  function LowerChar(c: char): (d: char)
    ensures 'A' <= c <= 'Z' ==> 'a' <= d <= 'z' && d as int - c as int == 32
    ensures !('A' <= c <= 'Z') ==> d == c
  {
    if 'A' <= c <= 'Z' then (c as int + 32) as char else c
  }

  /** Lowercase of a text, character by character. */
  function Lower(s: string): (r: string)
    ensures |r| == |s|
    ensures forall k :: 0 <= k < |s| ==> r[k] == LowerChar(s[k])
  {
    seq(|s|, k requires 0 <= k < |s| => LowerChar(s[k]))
  }

  /** Lowercasing twice is lowercasing once. */
  lemma LowerIdempotent(s: string)
    ensures Lower(Lower(s)) == Lower(s)
  {
    assert forall k :: 0 <= k < |s| ==> Lower(Lower(s))[k] == Lower(s)[k];
  }

  /** Lowercasing commutes with taking a slice. */
  lemma LowerSlice(s: string, i: nat, j: nat)
    requires i <= j <= |s|
    ensures Lower(s)[i..j] == Lower(s[i..j])
  {
    var whole, part := Lower(s), Lower(s[i..j]);
    forall k | 0 <= k < j - i ensures whole[i..j][k] == part[k] {
      assert whole[i..j][k] == whole[i + k] == LowerChar(s[i + k]);
      assert s[i..j][k] == s[i + k];
    }
    assert whole[i..j] == part;
  }

  /** An exact occurrence is still an occurrence once both sides are lowercased. */
  lemma LowerKeepsSubstring(query: string, line: string)
    requires IsSubstring(query, line)
    ensures IsSubstring(Lower(query), Lower(line))
  {
    var k: nat :| OccursAt(query, line, k);
    LowerSlice(line, k, k + |query|);
    assert OccursAt(Lower(query), Lower(line), k);
  }
}
