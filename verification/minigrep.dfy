/** minigrep: building a `Config` from the command line and searching the lines of a text
    (minigrep/src/lib.rs). Reading the file and the environment are parameters here. */
module Minigrep {
  import opened Wrappers
  import opened Seqs
  import opened Text

  /** What to search for, where, and whether letter case is ignored. */
  datatype Config = Config(query: string, path: string, caseInsensitive: bool)

  const QueryMissing: string := "Did not get a query string"
  const PathMissing: string := "Did not get a path string"

  /** `Iterator::next` over the remaining arguments: the next one, if any, and the rest. */
  function Next(args: seq<string>): (Option<string>, seq<string>) {
    if args == [] then (None, []) else (Some(args[0]), args[1..])
  }

  /** `env::var("INSENSITIVE").map(|v| v == "1").unwrap_or(false)`, where the variable's
      value is `None` when it is unset or not valid Unicode. */
  function CaseInsensitiveFromEnv(insensitive: Option<string>): (b: bool)
    ensures b <==> insensitive == Some("1")
  {
    match insensitive
    case Some(v) => v == "1"
    case None => false
  }

  /** `Config::build`: the first argument is the program name and is skipped, the second is
      the query and the third the path; anything after is ignored. */
  function Build(args: seq<string>, insensitive: Option<string>): (r: Result<Config, string>)
    ensures |args| < 2 <==> r == Failure(QueryMissing)
    ensures |args| == 2 <==> r == Failure(PathMissing)
    ensures |args| >= 3 <==> r.Success?
    ensures r.Success? ==> r.value == Config(args[1], args[2], insensitive == Some("1"))
  {
    var (_, afterProgram) := Next(args);
    var (query, afterQuery) := Next(afterProgram);
    if query.None? then Failure(QueryMissing)
    else
      var (path, _) := Next(afterQuery);
      if path.None? then Failure(PathMissing)
      else Success(Config(query.value, path.value, CaseInsensitiveFromEnv(insensitive)))
  }

  /** Arguments after the third do not change the outcome of `Build`. */
  lemma BuildIgnoresExtra(args: seq<string>, extra: seq<string>, insensitive: Option<string>)
    requires |args| >= 3
    ensures Build(args + extra, insensitive) == Build(args, insensitive)
  {
    assert (args + extra)[1] == args[1] && (args + extra)[2] == args[2];
  }

  /** The program name does not change the outcome of `Build`. */
  lemma BuildIgnoresProgramName(name1: string, name2: string, rest: seq<string>, insensitive: Option<string>)
    ensures Build([name1] + rest, insensitive) == Build([name2] + rest, insensitive)
  {
    if |rest| >= 2 {
      assert ([name1] + rest)[1] == rest[0] == ([name2] + rest)[1];
      assert ([name1] + rest)[2] == rest[1] == ([name2] + rest)[2];
    }
  }

  /** `Config::new`: `build` without the error path; it panics (here: may not be called)
      unless a query and a path are present. */
  function New(args: seq<string>, insensitive: Option<string>): (c: Config)
    requires |args| >= 3
    ensures Build(args, insensitive) == Success(c)
    ensures c.query == args[1] && c.path == args[2]
  {
    var (_, afterProgram) := Next(args);
    var (query, afterQuery) := Next(afterProgram);
    var (path, _) := Next(afterQuery);
    Config(query.value, path.value, CaseInsensitiveFromEnv(insensitive))
  }

  // ---------------------------------------------------------------- searching

  /** The line filter of `search_case_sensitive`. */
  function SensitiveMatch(query: string): (m: string -> bool)
    ensures m(query)
    ensures m([]) <==> query == []
  {
    ContainsTrivial(query);
    line => Contains(line, query)
  }

  /** The line filter of `search_case_insensitive`; the query is lowercased once. */
  function InsensitiveMatch(query: string): (m: string -> bool)
    ensures m(query)
    ensures m([]) <==> query == []
    ensures forall line :: ToLower(line) == ToLower(query) ==> m(line)
  {
    ContainsTrivial(ToLower(query));
    var pattern := ToLower(query);
    line => Contains(ToLower(line), pattern)
  }

  /** `search_case_sensitive`: the lines of `contents` that contain `query`. */
  function SearchCaseSensitive(query: string, contents: string): (r: seq<string>)
    ensures |r| <= |Lines(contents)|
    ensures forall k :: 0 <= k < |r| ==> Contains(r[k], query)
  {
    Filter(Lines(contents), SensitiveMatch(query))
  }

  /** `search_case_insensitive`: the lines of `contents` that contain `query` once both are
      lowercased; the lines are returned as they are, not lowercased. */
  function SearchCaseInsensitive(query: string, contents: string): (r: seq<string>)
    ensures |r| <= |Lines(contents)|
    ensures forall k :: 0 <= k < |r| ==> Contains(ToLower(r[k]), ToLower(query))
  {
    Filter(Lines(contents), InsensitiveMatch(query))
  }

  /** The case-sensitive search returns exactly the lines containing the query, each once
      and in the order of the text. */
  lemma SearchCaseSensitiveExact(query: string, contents: string)
    ensures IsSelection(SearchCaseSensitive(query, contents), Lines(contents), KeptIndices(Lines(contents), SensitiveMatch(query)))
    ensures forall i :: 0 <= i < |Lines(contents)|
              ==> (i in KeptIndices(Lines(contents), SensitiveMatch(query)) <==> Contains(Lines(contents)[i], query))
  {
    var ls := Lines(contents);
    var p := SensitiveMatch(query);
    var idx := KeptIndices(ls, p);
    FilterExact(ls, p);
    assert SearchCaseSensitive(query, contents) == Filter(ls, p);
    assert IsSelection(SearchCaseSensitive(query, contents), ls, idx);
    forall i | 0 <= i < |ls|
      ensures i in idx <==> Contains(ls[i], query)
    {
      assert p(ls[i]) == Contains(ls[i], query);
    }
  }

  /** The case-insensitive search returns exactly the original lines whose lowercase form
      contains the lowercased query, each once and in the order of the text. */
  lemma SearchCaseInsensitiveExact(query: string, contents: string)
    ensures IsSelection(SearchCaseInsensitive(query, contents), Lines(contents), KeptIndices(Lines(contents), InsensitiveMatch(query)))
    ensures forall i :: 0 <= i < |Lines(contents)|
              ==> (i in KeptIndices(Lines(contents), InsensitiveMatch(query)) <==> Contains(ToLower(Lines(contents)[i]), ToLower(query)))
  {
    var ls := Lines(contents);
    var p := InsensitiveMatch(query);
    var idx := KeptIndices(ls, p);
    FilterExact(ls, p);
    assert SearchCaseInsensitive(query, contents) == Filter(ls, p);
    assert IsSelection(SearchCaseInsensitive(query, contents), ls, idx);
    forall i | 0 <= i < |ls|
      ensures i in idx <==> Contains(ToLower(ls[i]), ToLower(query))
    {
      assert p(ls[i]) == Contains(ToLower(ls[i]), ToLower(query));
    }
  }

  /** The case-sensitive result is the case-insensitive result with the lines whose match
      depended on ignoring case removed. This holds for the per-character lowercasing of
      `Text.ToLower`, not for Unicode's context-dependent final sigma (see the README). */
  lemma SensitiveRefinesInsensitive(query: string, contents: string)
    ensures SearchCaseSensitive(query, contents)
         == Filter(SearchCaseInsensitive(query, contents), SensitiveMatch(query))
  {
    forall line | SensitiveMatch(query)(line)
      ensures InsensitiveMatch(query)(line)
    {
      ContainsLowered(line, query);
    }
    FilterRefine(Lines(contents), InsensitiveMatch(query), SensitiveMatch(query));
  }

  /** An empty query is contained in every line, so both searches return every line. */
  lemma SearchEmptyQuery(contents: string)
    ensures SearchCaseSensitive("", contents) == Lines(contents)
    ensures SearchCaseInsensitive("", contents) == Lines(contents)
  {
    var ls := Lines(contents);
    forall k | 0 <= k < |ls|
      ensures SensitiveMatch("")(ls[k]) && InsensitiveMatch("")(ls[k])
    {
      ContainsTrivial(ls[k]);
      ContainsTrivial(ToLower(ls[k]));
    }
    FilterAll(ls, SensitiveMatch(""));
    FilterAll(ls, InsensitiveMatch(""));
  }

  /** The case-insensitive search depends on the query only through its lowercase form. */
  lemma InsensitiveQueryCase(query1: string, query2: string, contents: string)
    requires ToLower(query1) == ToLower(query2)
    ensures SearchCaseInsensitive(query1, contents) == SearchCaseInsensitive(query2, contents)
  {
    FilterCongruent(Lines(contents), InsensitiveMatch(query1), InsensitiveMatch(query2));
  }

  // ---------------------------------------------------------------- run

  /** The printing loop of `Config::run`: each line written by `println!`, that is, followed
      by a line ending. The result is the text written. */
  method PrintLines(lines: seq<string>) returns (out: string)
    ensures out == JoinLines(lines)
  {
    out := "";
    var i := 0;
    while i < |lines|
      invariant 0 <= i <= |lines|
      invariant out == JoinLines(lines[..i])
    {
      JoinLinesAppend(lines[..i], lines[i]);
      assert lines[..i + 1] == lines[..i] + [lines[i]];
      out := out + lines[i] + NL;
      i := i + 1;
    }
    assert lines[..i] == lines;
  }

  /** `Config::run`, with the file read as a parameter: a read error is returned unchanged;
      otherwise the search chosen by the flag runs and each selected line is printed.
      The result is the printed text. */
  method Run(config: Config, file: Result<string, string>) returns (r: Result<string, string>)
    ensures file.Failure? ==> r == Failure(file.error)
    ensures file.Success? && config.caseInsensitive
            ==> r == Success(JoinLines(SearchCaseInsensitive(config.query, file.value)))
    ensures file.Success? && !config.caseInsensitive
            ==> r == Success(JoinLines(SearchCaseSensitive(config.query, file.value)))
  {
    if file.Failure? {
      return Failure(file.error);
    }
    var result := if config.caseInsensitive
                  then SearchCaseInsensitive(config.query, file.value)
                  else SearchCaseSensitive(config.query, file.value);
    var out := PrintLines(result);
    return Success(out);
  }

  /** Read back line by line, the text `Run` prints gives exactly the selected lines, as long
      as no line of the file ends with a bare `'\r'`. */
  lemma RunOutputLines(config: Config, contents: string)
    requires forall k :: 0 <= k < |Lines(contents)| ==> !EndsWithCR(Lines(contents)[k])
    ensures config.caseInsensitive
            ==> Lines(JoinLines(SearchCaseInsensitive(config.query, contents)))
                == SearchCaseInsensitive(config.query, contents)
    ensures !config.caseInsensitive
            ==> Lines(JoinLines(SearchCaseSensitive(config.query, contents)))
                == SearchCaseSensitive(config.query, contents)
  {
    var ls := Lines(contents);
    var result, idx;
    if config.caseInsensitive {
      result := SearchCaseInsensitive(config.query, contents);
      idx := KeptIndices(ls, InsensitiveMatch(config.query));
      SearchCaseInsensitiveExact(config.query, contents);
    } else {
      result := SearchCaseSensitive(config.query, contents);
      idx := KeptIndices(ls, SensitiveMatch(config.query));
      SearchCaseSensitiveExact(config.query, contents);
    }
    forall k | 0 <= k < |result|
      ensures '\n' !in result[k] && !EndsWithCR(result[k])
    {
      assert result[k] == ls[idx[k]];
    }
    LinesOfJoinLines(result);
  }

  // ---------------------------------------------------------------- the unit tests' examples
  // The examples take their text as a parameter fixed by `requires`: written as literals,
  // the verifier would unfold the recursive definitions on them eagerly.

  const Poem: string := "Rust:" + NL + "Safe, Fast, Productive." + NL + "Select 3."

  lemma PoemTailLines(middle: string, last: string)
    requires middle == "Safe, Fast, Productive." && last == "Select 3."
    ensures Lines(middle + NL + last) == [middle, last]
  {
    LinesNoNewline(last);
    LinesCons(middle, last);
  }

  /** The example text has three lines. */
  lemma PoemLines(contents: string)
    requires contents == Poem
    ensures Lines(contents) == ["Rust:", "Safe, Fast, Productive.", "Select 3."]
  {
    var first, middle, last := "Rust:", "Safe, Fast, Productive.", "Select 3.";
    var tail := middle + NL + last;
    assert contents == first + NL + tail;
    PoemTailLines(middle, last);
    LinesCons(first, tail);
  }

  /** The example's middle line contains `"duct"`, at position 15. */
  lemma MiddleLine(middle: string, query: string)
    requires middle == "Safe, Fast, Productive." && query == "duct"
    ensures Contains(middle, query)
  {
    assert middle[15..19] == query;
    assert OccursAt(middle, query, 15);
  }

  /** The case-sensitive unit test: only the middle line contains `"duct"`. */
  lemma SearchCaseSensitiveExample(query: string, contents: string)
    requires query == "duct" && contents == Poem
    ensures SearchCaseSensitive(query, contents) == ["Safe, Fast, Productive."]
  {
    var p := SensitiveMatch(query);
    assert !p("Rust:") by {
      NotContainsFirstChar("Rust:", query);
    }
    assert p("Safe, Fast, Productive.") by {
      MiddleLine("Safe, Fast, Productive.", query);
    }
    assert !p("Select 3.") by {
      NotContainsFirstChar("Select 3.", query);
    }
    PoemLines(contents);
    FilterThree("Rust:", "Safe, Fast, Productive.", "Select 3.", p);
  }

  /** Lowercased, the example's first and last lines do not contain `"duct"`. */
  lemma LowerOuterLines(first: string, last: string)
    requires first == "Rust:" && last == "Select 3."
    ensures !Contains(ToLower(first), "duct")
    ensures !Contains(ToLower(last), "duct")
  {
    NotContainsLowered(first, "duct");
    NotContainsLowered(last, "duct");
  }

  /** Lowercased, the example's middle line still contains `"duct"`. */
  lemma LowerMiddleLine(middle: string)
    requires middle == "Safe, Fast, Productive."
    ensures Contains(ToLower(middle), "duct")
  {
    ToLowerSlice(middle, 15, 19);
    assert middle[15..19] == "duct";
    assert ToLower("duct") == "duct";
    assert OccursAt(ToLower(middle), "duct", 15);
  }

  lemma LowerExampleQuery(query: string)
    requires query == "dUcT"
    ensures ToLower(query) == "duct"
  {
  }

  /** The case-insensitive unit test: `"dUcT"` selects the same line, unchanged. */
  lemma SearchCaseInsensitiveExample(query: string, contents: string)
    requires query == "dUcT" && contents == Poem
    ensures SearchCaseInsensitive(query, contents) == ["Safe, Fast, Productive."]
  {
    var p := InsensitiveMatch(query);
    var ls := Lines(contents);
    PoemLines(contents);
    LowerExampleQuery(query);
    LowerOuterLines(ls[0], ls[2]);
    LowerMiddleLine(ls[1]);
    assert !p(ls[0]) && p(ls[1]) && !p(ls[2]);
    assert ls == [ls[0], ls[1], ls[2]];
    FilterThree(ls[0], ls[1], ls[2], p);
  }
}
