/**
 * The minigrep library: building a search configuration from the command-line
 * arguments, the case-sensitive and case-insensitive line searches, and the
 * choice between them that `run` makes.
 */
module Minigrep {
  import opened RustStr

  datatype Result<T, E> = Ok(value: T) | Err(error: E)

  /** The query, the path of the file to search, and the search mode. */
  datatype Config = Config(query: string, filePath: string, ignoreCase: bool)

  const NotEnoughArguments: string := "Not enough arguments!"

  /* ---------------------------------------------------------------------------
   * Config::build
   * ------------------------------------------------------------------------- */

  /**
   * `Config::build`: `args[0]` is the program name, `args[1]` the query and
   * `args[2]` the file path; further arguments are ignored. `ignoreCase` stands
   * for whether reading the variable IGNORE_CASE from the environment
   * succeeds: it is set, and its value is valid Unicode.
   */
  function Build(args: seq<string>, ignoreCase: bool): (r: Result<Config, string>)
    ensures r.Err? <==> |args| < 3
    ensures r.Err? ==> r.error == NotEnoughArguments
    ensures r.Ok? ==> r.value.query == args[1] && r.value.filePath == args[2]
    ensures r.Ok? ==> r.value.ignoreCase == ignoreCase
  {
    if |args| < 3 then Err(NotEnoughArguments)
    else Ok(Config(args[1], args[2], ignoreCase))
  }

  /** Any configuration is what `Build` makes of its query and path given as arguments. */
  lemma BuildRoundTrip(program: string, config: Config, extra: seq<string>)
    ensures Build([program, config.query, config.filePath] + extra, config.ignoreCase) == Ok(config)
  {
  }

  /* ---------------------------------------------------------------------------
   * What the searches keep
   * ------------------------------------------------------------------------- */

  /**
   * Whether a search keeps `line`: in case-sensitive mode when `query` occurs in
   * it; in case-insensitive mode when the lowercased query occurs in the
   * lowercased line.
   */
  ghost predicate Keeps(query: string, line: string, ignoreCase: bool)
    ensures Keeps(query, line, ignoreCase) <==>
      if ignoreCase then Contains(Lower(line), Lower(query)) else Contains(line, query)
  {
    if ignoreCase then IsSubstring(Lower(query), Lower(line)) else IsSubstring(query, line)
  }

  /** The lines a search keeps, in their order, each one as it was. */
  ghost function Selected(lines: seq<string>, query: string, ignoreCase: bool): (r: seq<string>)
    ensures |r| <= |lines|
  {
    if lines == [] then []
    else
      var init := Selected(lines[..|lines| - 1], query, ignoreCase);
      var last := lines[|lines| - 1];
      if Keeps(query, last, ignoreCase) then init + [last] else init
  }

  /** The positions, in `lines`, of the lines that `Selected` keeps. */
  ghost function KeptIndices(lines: seq<string>, query: string, ignoreCase: bool): seq<nat>
  {
    if lines == [] then []
    else
      var init := KeptIndices(lines[..|lines| - 1], query, ignoreCase);
      if Keeps(query, lines[|lines| - 1], ignoreCase) then init + [|lines| - 1] else init
  }

  /**
   * The result of a search is exactly the lines that satisfy the match
   * predicate, each taken unmodified from its position in the input, positions
   * strictly increasing (so the order is kept and no line is repeated), and
   * every matching position taken.
   */
  lemma {:induction false} SelectedIsOrderedSelection(lines: seq<string>, query: string, ignoreCase: bool)
    ensures var r, idx := Selected(lines, query, ignoreCase), KeptIndices(lines, query, ignoreCase);
      && |idx| == |r|
      && (forall j :: 0 <= j < |idx| ==> idx[j] < |lines| && r[j] == lines[idx[j]])
      && (forall j, k :: 0 <= j < k < |idx| ==> idx[j] < idx[k])
      && (forall i :: 0 <= i < |lines| ==> (i in idx <==> Keeps(query, lines[i], ignoreCase)))
  {
    if lines != [] {
      var init := lines[..|lines| - 1];
      SelectedIsOrderedSelection(init, query, ignoreCase);
      var idx := KeptIndices(lines, query, ignoreCase);
      var idx0 := KeptIndices(init, query, ignoreCase);
      forall i | 0 <= i < |lines|
        ensures i in idx <==> Keeps(query, lines[i], ignoreCase)
      {
        if i < |lines| - 1 {
          assert lines[i] == init[i];
          assert i in idx <==> i in idx0;
        }
      }
    }
  }

  /** A line is in the result exactly when it is a line of the input that the search keeps. */
  lemma {:induction false} SelectedMembership(lines: seq<string>, query: string, ignoreCase: bool, line: string)
    ensures line in Selected(lines, query, ignoreCase) <==> line in lines && Keeps(query, line, ignoreCase)
  {
    SelectedIsOrderedSelection(lines, query, ignoreCase);
    var r, idx := Selected(lines, query, ignoreCase), KeptIndices(lines, query, ignoreCase);
    if line in r {
      var j :| 0 <= j < |r| && r[j] == line;
      assert lines[idx[j]] == line;
    }
    if line in lines && Keeps(query, line, ignoreCase) {
      var i :| 0 <= i < |lines| && lines[i] == line;
      assert i in idx;
      var j :| 0 <= j < |idx| && idx[j] == i;
      assert r[j] == line;
    }
  }

  /** Every line in the result contains the query (after lowercasing both, in case-insensitive mode). */
  lemma {:induction false} SelectedSound(lines: seq<string>, query: string, ignoreCase: bool)
    ensures forall line :: line in Selected(lines, query, ignoreCase) ==>
      if ignoreCase then IsSubstring(Lower(query), Lower(line)) else IsSubstring(query, line)
  {
    forall line | line in Selected(lines, query, ignoreCase)
      ensures Keeps(query, line, ignoreCase)
    {
      SelectedMembership(lines, query, ignoreCase, line);
    }
  }

  /** Every input line that contains the query is in the result. */
  lemma {:induction false} SelectedComplete(lines: seq<string>, query: string, ignoreCase: bool)
    ensures forall i :: 0 <= i < |lines| && Keeps(query, lines[i], ignoreCase) ==>
      lines[i] in Selected(lines, query, ignoreCase)
  {
    forall i | 0 <= i < |lines| && Keeps(query, lines[i], ignoreCase)
      ensures lines[i] in Selected(lines, query, ignoreCase)
    {
      SelectedMembership(lines, query, ignoreCase, lines[i]);
    }
  }

  /** The empty query keeps every line, in either mode. */
  lemma {:induction false} EmptyQueryKeepsAll(lines: seq<string>, ignoreCase: bool)
    ensures Selected(lines, "", ignoreCase) == lines
  {
    if lines != [] {
      var last := lines[|lines| - 1];
      EmptyQueryKeepsAll(lines[..|lines| - 1], ignoreCase);
      EmptyIsSubstring(last);
      EmptyIsSubstring(Lower(last));
      assert Lower("") == "";
      assert lines == lines[..|lines| - 1] + [last];
    }
  }

  /** Empty contents have no lines, so nothing is found, whatever the query and mode. */
  lemma EmptyContentsNoMatch(query: string, ignoreCase: bool)
    ensures Selected(Lines(""), query, ignoreCase) == []
  {
  }

  /**
   * With a lowercase query, every line the case-sensitive search finds is
   * also found by the case-insensitive one.
   */
  lemma {:induction false} CaseInsensitiveFindsMore(lines: seq<string>, query: string, line: string)
    requires Lower(query) == query
    ensures line in Selected(lines, query, false) ==> line in Selected(lines, query, true)
  {
    SelectedMembership(lines, query, false, line);
    SelectedMembership(lines, query, true, line);
    if line in Selected(lines, query, false) {
      LowerKeepsSubstring(query, line);
    }
  }

  /** The case-insensitive search does not depend on the case of the query. */
  lemma {:induction false} CaseInsensitiveIgnoresQueryCase(lines: seq<string>, query: string)
    ensures Selected(lines, query, true) == Selected(lines, Lower(query), true)
  {
    LowerIdempotent(query);
    if lines != [] {
      CaseInsensitiveIgnoresQueryCase(lines[..|lines| - 1], query);
    }
  }

  /* ---------------------------------------------------------------------------
   * search, search_case_insensitive, run
   * ------------------------------------------------------------------------- */

  /** `search`: the lines of `contents` that contain `query`, in order. */
  method Search(query: string, contents: string) returns (results: seq<string>)
    ensures results == Selected(Lines(contents), query, false)
  {
    results := [];
    var lines := Lines(contents);
    for i := 0 to |lines|
      invariant results == Selected(lines[..i], query, false)
    {
      assert lines[..i + 1][..i] == lines[..i];
      if Contains(lines[i], query) {
        results := results + [lines[i]];
      }
    }
    assert lines[..|lines|] == lines;
  }

  /**
   * `search_case_insensitive`: the lines of `contents` whose lowercase form
   * contains the lowercased `query`; each line is returned as it is in
   * `contents`, not lowercased.
   */
  method SearchCaseInsensitive(query: string, contents: string) returns (results: seq<string>)
    ensures results == Selected(Lines(contents), query, true)
  {
    var lowered := Lower(query);
    results := [];
    var lines := Lines(contents);
    for i := 0 to |lines|
      invariant results == Selected(lines[..i], query, true)
    {
      assert lines[..i + 1][..i] == lines[..i];
      if Contains(Lower(lines[i]), lowered) {
        results := results + [lines[i]];
      }
    }
    assert lines[..|lines|] == lines;
  }

  /**
   * `run`, after the file is read: `file` is the outcome of reading
   * `config.filePath` (its contents, or the reason it could not be read). A
   * read failure is passed on and nothing is found; otherwise the result is
   * the lines `run` prints, one per element, from the search that
   * `config.ignoreCase` selects.
   */
  method Run(config: Config, file: Result<string, string>) returns (r: Result<seq<string>, string>)
    ensures file.Err? ==> r == Err(file.error)
    ensures file.Ok? && config.ignoreCase ==>
      r == Ok(Selected(Lines(file.value), config.query, true))
    ensures file.Ok? && !config.ignoreCase ==>
      r == Ok(Selected(Lines(file.value), config.query, false))
  {
    if file.Err? {
      return Err(file.error);
    }
    var contents := file.value;
    var results;
    if config.ignoreCase {
      results := SearchCaseInsensitive(config.query, contents);
    } else {
      results := Search(config.query, contents);
    }
    r := Ok(results);
  }
}
