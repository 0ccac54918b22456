/** String primitives of Rust's `str` that the core relies on: substring search
    (`contains`), ASCII lowercasing (`to_lowercase`) and line splitting (`lines`). */
module Text {
  import opened Wrappers

  /** `pat` occurs in `s` starting at position `i`. */
  ghost predicate OccursAt(s: string, pat: string, i: int) {
    0 <= i <= |s| - |pat| && s[i..i + |pat|] == pat
  }

  /** An occurrence past the first position of `s` is an occurrence in `s[1..]`, one place
      to the left. */
  lemma OccursShift(s: string, pat: string)
    requires |s| > 0
    ensures forall j :: 1 <= j ==> (OccursAt(s, pat, j) <==> OccursAt(s[1..], pat, j - 1))
  {
    forall j | 1 <= j
      ensures OccursAt(s, pat, j) <==> OccursAt(s[1..], pat, j - 1)
    {
      if j <= |s| - |pat| {
        assert s[1..][j - 1..j - 1 + |pat|] == s[j..j + |pat|];
      }
    }
  }

  /** The position of the first occurrence of `pat` in `s`, if any. */
  function IndexOf(s: string, pat: string): (r: Option<nat>)
    ensures r.Some? ==> OccursAt(s, pat, r.value)
    ensures r.Some? ==> forall j :: 0 <= j < r.value ==> !OccursAt(s, pat, j)
    ensures r.None? ==> forall j :: !OccursAt(s, pat, j)
    decreases |s|
  {
    if pat <= s then
      assert s[..|pat|] == pat;
      Some(0)
    else if |s| <= |pat| then None
    else
      OccursShift(s, pat);
      match IndexOf(s[1..], pat)
      case None => None
      case Some(k) => Some(k + 1)
  }

  /** `IndexOf` reports the first occurrence, wherever it is shown to be. */
  lemma IndexOfFirst(s: string, pat: string, k: nat)
    requires OccursAt(s, pat, k)
    requires forall j :: 0 <= j < k ==> !OccursAt(s, pat, j)
    ensures IndexOf(s, pat) == Some(k)
  {
  }

  /** Rust's `str::contains` for a string pattern. */
  function Contains(s: string, pat: string): (b: bool)
    ensures b <==> exists i :: OccursAt(s, pat, i)
  {
    IndexOf(s, pat).Some?
  }

  /** A non-empty pattern whose first character is absent from `s` does not occur in `s`. */
  lemma NotContainsFirstChar(s: string, pat: string)
    requires pat != [] && pat[0] !in s
    ensures !Contains(s, pat)
  {
    forall i | 0 <= i <= |s| - |pat|
      ensures !OccursAt(s, pat, i)
    {
      assert s[i..i + |pat|][0] == s[i];
      assert s[i] in s;
    }
  }

  /** Every string contains the empty pattern and itself. */
  lemma ContainsTrivial(s: string)
    ensures Contains(s, "")
    ensures Contains(s, s)
  {
    assert OccursAt(s, "", 0);
    assert OccursAt(s, s, 0);
  }

  /** An occurrence inside `a` is an occurrence inside `a + b`, at the same place. */
  lemma OccursInPrefix(a: string, b: string, pat: string, i: int)
    requires OccursAt(a, pat, i)
    ensures OccursAt(a + b, pat, i)
  {
    assert (a + b)[i..i + |pat|] == a[i..i + |pat|];
  }

  // ---------------------------------------------------------------- lowercasing

  predicate IsAsciiUpper(c: char) { 'A' <= c <= 'Z' }

  /** Lowercasing of one character, restricted to ASCII letters. */
  function ToLowerChar(c: char): (d: char)
    ensures IsAsciiUpper(c) ==> d as int == c as int + 32
    ensures !IsAsciiUpper(c) ==> d == c
    ensures !IsAsciiUpper(d)
  {
    if IsAsciiUpper(c) then (c as int + 32) as char else c
  }

  /** `str::to_lowercase`, applied character by character. */
  function ToLower(s: string): (r: string)
    ensures |r| == |s|
    ensures forall i :: 0 <= i < |s| ==> r[i] == ToLowerChar(s[i])
  {
    seq(|s|, i requires 0 <= i < |s| => ToLowerChar(s[i]))
  }

  /** Lowercased, `s` cannot contain a pattern whose first character no character of `s`
      lowercases to. */
  lemma NotContainsLowered(s: string, pat: string)
    requires pat != []
    requires forall i :: 0 <= i < |s| ==> ToLowerChar(s[i]) != pat[0]
    ensures !Contains(ToLower(s), pat)
  {
    var t := ToLower(s);
    forall i | 0 <= i < |t|
      ensures t[i] != pat[0]
    {
    }
    assert pat[0] !in t;
    NotContainsFirstChar(t, pat);
  }

  /** Lowercasing commutes with slicing. */
  lemma ToLowerSlice(s: string, i: int, j: int)
    requires 0 <= i <= j <= |s|
    ensures ToLower(s)[i..j] == ToLower(s[i..j])
  {
  }

  /** Lowercasing twice is lowercasing once. */
  lemma ToLowerIdempotent(s: string)
    ensures ToLower(ToLower(s)) == ToLower(s)
  {
  }

  /** Under the per-character lowercasing modelled here, a case-sensitive match is also a
      case-insensitive match. (Unicode's context-dependent final sigma breaks this for
      `str::to_lowercase`; see the README.) */
  lemma ContainsLowered(s: string, pat: string)
    requires Contains(s, pat)
    ensures Contains(ToLower(s), ToLower(pat))
  {
    var i := IndexOf(s, pat).value;
    ToLowerSlice(s, i, i + |pat|);
    assert OccursAt(ToLower(s), ToLower(pat), i);
  }

  // ---------------------------------------------------------------- lines

  const NL: string := "\n"

  /** Drops the `'\r'` of a `"\r\n"` line ending. */
  function StripCR(line: string): (r: string)
    ensures |line| > 0 && line[|line| - 1] == '\r' ==> r == line[..|line| - 1]
    ensures !(|line| > 0 && line[|line| - 1] == '\r') ==> r == line
  {
    if |line| > 0 && line[|line| - 1] == '\r' then line[..|line| - 1] else line
  }

  predicate EndsWithCR(line: string) {
    |line| > 0 && line[|line| - 1] == '\r'
  }

  /** Before the first occurrence of `"\n"` there is no `'\n'` character. */
  lemma NoNewlineBefore(s: string, k: int)
    requires k <= |s|
    requires forall j :: 0 <= j < k ==> !OccursAt(s, NL, j)
    ensures forall j :: 0 <= j < k ==> s[j] != '\n'
  {
    forall j | 0 <= j < k
      ensures s[j] != '\n'
    {
      assert !OccursAt(s, NL, j);
      assert s[j..j + 1] == [s[j]];
    }
  }

  /** `str::lines`: the text split at each `'\n'`, the `'\r'` of a `"\r\n"` ending dropped,
      and no empty last line when the text ends with a line ending. */
  function Lines(s: string): (r: seq<string>)
    ensures forall k :: 0 <= k < |r| ==> '\n' !in r[k]
    ensures |r| == 0 <==> s == []
    decreases |s|
  {
    if s == [] then []
    else
      match IndexOf(s, NL)
      case None =>
        NoNewlineBefore(s, |s|);
        [s]
      case Some(k) =>
        NoNewlineBefore(s, k);
        [StripCR(s[..k])] + Lines(s[k + 1..])
  }

  /** One step of `Lines`, stated on characters: the first line ends at the first `'\n'`. */
  lemma LinesFirst(s: string, k: nat)
    requires k < |s| && s[k] == '\n'
    requires forall j :: 0 <= j < k ==> s[j] != '\n'
    ensures Lines(s) == [StripCR(s[..k])] + Lines(s[k + 1..])
  {
    assert s[k..k + 1] == NL;
    forall j | 0 <= j < k
      ensures !OccursAt(s, NL, j)
    {
      assert s[j..j + 1] == [s[j]];
    }
    IndexOfFirst(s, NL, k);
  }

  /** A line without `'\n'` or a final `'\r'`, followed by `'\n'`, is the first line. */
  lemma LinesCons(line: string, rest: string)
    requires '\n' !in line && !EndsWithCR(line)
    ensures Lines(line + NL + rest) == [line] + Lines(rest)
  {
    var s := line + NL + rest;
    forall j | 0 <= j < |line|
      ensures s[j] != '\n'
    {
      assert s[j] == line[j];
    }
    LinesFirst(s, |line|);
    assert s[..|line|] == line;
    assert s[|line| + 1..] == rest;
  }

  /** Text without any `'\n'` is a single line, kept as it is. */
  lemma LinesNoNewline(s: string)
    requires s != []
    requires forall j :: 0 <= j < |s| ==> s[j] != '\n'
    ensures Lines(s) == [s]
  {
    forall j
      ensures !OccursAt(s, NL, j)
    {
      if 0 <= j < |s| {
        assert s[j..j + 1] == [s[j]];
      }
    }
    assert IndexOf(s, NL).None?;
  }

  /** The text `println!` produces for each line in turn: every line followed by `'\n'`. */
  function JoinLines(ls: seq<string>): (r: string)
    ensures r == [] <==> ls == []
    ensures ls != [] ==> r[|r| - 1] == '\n'
    decreases |ls|
  {
    if ls == [] then [] else ls[0] + NL + JoinLines(ls[1..])
  }

  lemma {:induction false} JoinLinesAppend(ls: seq<string>, line: string)
    ensures JoinLines(ls + [line]) == JoinLines(ls) + line + NL
    decreases |ls|
  {
    if ls == [] {
      assert ls + [line] == [line];
      assert JoinLines([line]) == line + NL + JoinLines([]);
    } else {
      var ls' := ls + [line];
      assert ls'[0] == ls[0];
      assert ls'[1..] == ls[1..] + [line];
      JoinLinesAppend(ls[1..], line);
      calc {
        JoinLines(ls');
        ls[0] + NL + JoinLines(ls[1..] + [line]);
        ls[0] + NL + (JoinLines(ls[1..]) + line + NL);
        (ls[0] + NL + JoinLines(ls[1..])) + line + NL;
      }
    }
  }

  /** Splitting the joined text gives back the lines, for lines that hold no `'\n'` and
      do not end with a `'\r'` (that one would be read as part of a `"\r\n"` ending). */
  lemma {:induction false} LinesOfJoinLines(ls: seq<string>)
    requires forall k :: 0 <= k < |ls| ==> '\n' !in ls[k] && !EndsWithCR(ls[k])
    ensures Lines(JoinLines(ls)) == ls
    decreases |ls|
  {
    if ls != [] {
      var s := JoinLines(ls);
      var head := ls[0];
      assert s == head + NL + JoinLines(ls[1..]);
      assert OccursAt(s, NL, |head|);
      forall j | 0 <= j < |head|
        ensures !OccursAt(s, NL, j)
      {
        assert s[j] == head[j];
      }
      IndexOfFirst(s, NL, |head|);
      assert s[..|head|] == head;
      assert s[|head| + 1..] == JoinLines(ls[1..]);
      LinesOfJoinLines(ls[1..]);
    }
  }

  /** A final line ending does not add a line: text with and without it gives the same lines
      (when the last line does not itself end with a bare `'\r'`). */
  lemma {:induction false} LinesFinalNewline(s: string)
    requires s != [] && s[|s| - 1] != '\n' && !EndsWithCR(s)
    ensures Lines(s + NL) == Lines(s)
    decreases |s|
  {
    var t := s + NL;
    match IndexOf(s, NL)
    case None =>
      assert OccursAt(t, NL, |s|);
      forall j | 0 <= j < |s|
        ensures !OccursAt(t, NL, j)
      {
        assert !OccursAt(s, NL, j);
        assert t[j..j + 1] == s[j..j + 1];
      }
      IndexOfFirst(t, NL, |s|);
      assert t[..|s|] == s;
      assert t[|s| + 1..] == [];
    case Some(k) =>
      OccursInPrefix(s, NL, NL, k);
      forall j | 0 <= j < k
        ensures !OccursAt(t, NL, j)
      {
        assert !OccursAt(s, NL, j);
        assert t[j..j + 1] == s[j..j + 1];
      }
      IndexOfFirst(t, NL, k);
      assert t[..k] == s[..k];
      assert t[k + 1..] == s[k + 1..] + NL;
      if k + 1 < |s| {
        LinesFinalNewline(s[k + 1..]);
      } else {
        assert false;
      }
  }
}
