/**
 * Report-file selection (main.go, findReportFileName): walk the scan
 * directory, keep every entry that is not a directory and whose base name
 * ends in ".js" and matches "scoutsuite_results_aws-*.js", then accept
 * exactly one.
 * The directory walk itself is given to the model as the sequence of entries
 * it visits, in walk order.
 */
module Locator {
  import opened Wrappers

  /** One entry visited by the directory walk. */
  datatype Entry = Entry(path: string, name: string, isDir: bool)

  /** Why no single report file could be chosen. */
  datatype LocateError = NoFilesFound | TooManyFiles(paths: seq<string>)

  const ReportPrefix: string := "scoutsuite_results_aws-"
  const ReportSuffix: string := ".js"
  const ReportPattern: string := ReportPrefix + "*" + ReportSuffix
  const Separator: string := ", "
  const TooManyFilesPrefix: string := "found too many files. Expected one: "

  // ---------------------------------------------------------------------------
  // Glob matching (filepath.Match, for patterns made of literals and `*`)
  // ---------------------------------------------------------------------------

  /** `s` matches `p`, where `*` stands for any run of characters other than
      the Unix path separator `/` and every other character stands for itself. */
  predicate GlobMatch(p: string, s: string)
    decreases |p| + |s|
  {
    if p == [] then s == []
    else if p[0] == '*' then GlobMatch(p[1..], s) || (s != [] && s[0] != '/' && GlobMatch(p, s[1..]))
    else s != [] && s[0] == p[0] && GlobMatch(p[1..], s[1..])
  }

  predicate HasPrefix(s: string, prefix: string) {
    |prefix| <= |s| && s[..|prefix|] == prefix
  }

  predicate HasSuffix(s: string, suffix: string) {
    |suffix| <= |s| && s[|s| - |suffix|..] == suffix
  }

  /** A pattern without `*` in front of `q` consumes exactly its own characters. */
  lemma {:induction false} GlobLiteralPrefix(lit: string, q: string, s: string)
    requires '*' !in lit
    ensures GlobMatch(lit + q, s) <==> HasPrefix(s, lit) && GlobMatch(q, s[|lit|..])
  {
    if lit != [] {
      assert (lit + q)[1..] == lit[1..] + q;
      if s != [] {
        GlobLiteralPrefix(lit[1..], q, s[1..]);
        assert HasPrefix(s, lit) <==> s[0] == lit[0] && HasPrefix(s[1..], lit[1..]);
        if |s| >= |lit| {
          assert s[|lit|..] == s[1..][|lit[1..]|..];
        }
      }
    } else {
      assert lit + q == q;
    }
  }

  /** A pattern without `*` matches only itself. */
  lemma GlobLiteralOnly(lit: string, s: string)
    requires '*' !in lit
    ensures GlobMatch(lit, s) <==> s == lit
  {
    GlobLiteralPrefix(lit, [], s);
    assert lit + [] == lit;
  }

  /** `*` followed by a literal matches exactly the strings that end in the
      literal and have no `/` before it. */
  lemma {:induction false} GlobStarLiteral(lit: string, s: string)
    requires '*' !in lit
    ensures GlobMatch(['*'] + lit, s) <==>
              HasSuffix(s, lit) && '/' !in s[..|s| - |lit|]
    decreases |s|
  {
    var p := ['*'] + lit;
    assert p[1..] == lit;
    GlobLiteralOnly(lit, s);
    if s != [] {
      GlobStarLiteral(lit, s[1..]);
      if |s| > |lit| {
        assert s[1..][|s[1..]| - |lit|..] == s[|s| - |lit|..];
        assert s[..|s| - |lit|] == [s[0]] + s[1..][..|s[1..]| - |lit|];
      }
    }
  }

  lemma NoStarInReportPrefix()
    ensures '*' !in ReportPrefix
  {
    assert forall i :: 0 <= i < |ReportPrefix| ==> ReportPrefix[i] != '*';
  }

  /** After a literal prefix, the `*`-then-literal condition on the rest of
      the name is the same condition stated on the whole name. */
  lemma StarSuffixAfterPrefix(pre: string, suf: string, name: string)
    requires HasPrefix(name, pre)
    ensures var rest := name[|pre|..];
            (HasSuffix(rest, suf) && '/' !in rest[..|rest| - |suf|]) <==>
            (|name| >= |pre| + |suf| && HasSuffix(name, suf) && '/' !in name[|pre|..|name| - |suf|])
  {
    var rest := name[|pre|..];
    if |rest| >= |suf| {
      assert rest[..|rest| - |suf|] == name[|pre|..|name| - |suf|];
      assert rest[|rest| - |suf|..] == name[|name| - |suf|..];
    }
  }

  /** A literal, a `*`, then a literal: a matching name carries both literals,
      not overlapping, with no `/` in between. */
  lemma PrefixStarSuffixSound(pre: string, suf: string, name: string)
    requires '*' !in pre && '*' !in suf
    requires GlobMatch(pre + (['*'] + suf), name)
    ensures |name| >= |pre| + |suf| && HasPrefix(name, pre) && HasSuffix(name, suf)
    ensures '/' !in name[|pre|..|name| - |suf|]
  {
    GlobLiteralPrefix(pre, ['*'] + suf, name);
    GlobStarLiteral(suf, name[|pre|..]);
    StarSuffixAfterPrefix(pre, suf, name);
  }

  /** Conversely, every name that carries both literals, not overlapping, with
      no `/` in between, matches. */
  lemma PrefixStarSuffixComplete(pre: string, suf: string, name: string)
    requires '*' !in pre && '*' !in suf
    requires |name| >= |pre| + |suf| && HasPrefix(name, pre) && HasSuffix(name, suf)
    requires '/' !in name[|pre|..|name| - |suf|]
    ensures GlobMatch(pre + (['*'] + suf), name)
  {
    StarSuffixAfterPrefix(pre, suf, name);
    GlobStarLiteral(suf, name[|pre|..]);
    GlobLiteralPrefix(pre, ['*'] + suf, name);
  }

  /** Both directions together. */
  lemma PrefixStarSuffix(pre: string, suf: string, name: string)
    requires '*' !in pre && '*' !in suf
    ensures GlobMatch(pre + (['*'] + suf), name) <==>
              |name| >= |pre| + |suf| &&
              HasPrefix(name, pre) && HasSuffix(name, suf) &&
              '/' !in name[|pre|..|name| - |suf|]
  {
    if GlobMatch(pre + (['*'] + suf), name) {
      PrefixStarSuffixSound(pre, suf, name);
    } else if |name| >= |pre| + |suf| && HasPrefix(name, pre) && HasSuffix(name, suf) &&
              '/' !in name[|pre|..|name| - |suf|] {
      PrefixStarSuffixComplete(pre, suf, name);
    }
  }

  /** The fixed report pattern accepts exactly the names that start with the
      report prefix, end in ".js", are long enough for both, and have no `/`
      in the part the `*` stands for. */
  lemma ReportPatternMatch(name: string)
    ensures GlobMatch(ReportPattern, name) <==>
              |name| >= |ReportPrefix| + |ReportSuffix| &&
              HasPrefix(name, ReportPrefix) && HasSuffix(name, ReportSuffix) &&
              '/' !in name[|ReportPrefix|..|name| - |ReportSuffix|]
  {
    NoStarInReportPrefix();
    PrefixStarSuffix(ReportPrefix, ReportSuffix, name);
    assert ReportPattern == ReportPrefix + (['*'] + ReportSuffix);
  }

  // ---------------------------------------------------------------------------
  // Candidate selection (main.go:75-83)
  // ---------------------------------------------------------------------------

  /** The walk callback's test: not a directory, name ends in ".js", and the
      name matches the report pattern. */
  predicate IsCandidate(e: Entry) {
    !e.isDir && HasSuffix(e.name, ReportSuffix) && GlobMatch(ReportPattern, e.name)
  }

  /** For a base name (no `/`), an entry is a candidate exactly when it is not
      a directory and its name is the report prefix, then anything (possibly empty), then ".js". */
  lemma CandidateIsReportName(e: Entry)
    requires '/' !in e.name
    ensures IsCandidate(e) <==>
              !e.isDir && |e.name| >= |ReportPrefix| + |ReportSuffix| &&
              HasPrefix(e.name, ReportPrefix) && HasSuffix(e.name, ReportSuffix)
  {
    ReportPatternMatch(e.name);
  }

  /** Paths of the candidate entries, in walk order. */
  function Candidates(entries: seq<Entry>): (paths: seq<string>)
    ensures |paths| <= |entries|
  {
    if entries == [] then []
    else
      var last := entries[|entries| - 1];
      Candidates(entries[..|entries| - 1]) + (if IsCandidate(last) then [last.path] else [])
  }

  /** Walk order is kept: the candidates of a longer walk extend those of its prefix. */
  lemma {:induction false} CandidatesAppend(a: seq<Entry>, b: seq<Entry>)
    ensures Candidates(a + b) == Candidates(a) + Candidates(b)
    decreases |b|
  {
    if b == [] {
      assert a + b == a;
    } else {
      assert (a + b)[..|a + b| - 1] == a + b[..|b| - 1];
      CandidatesAppend(a, b[..|b| - 1]);
    }
  }

  /** A path is collected iff some candidate entry of the walk has it. */
  lemma {:induction false} CandidatesMembers(entries: seq<Entry>, p: string)
    ensures p in Candidates(entries) <==>
              exists i :: 0 <= i < |entries| && entries[i].path == p && IsCandidate(entries[i])
  {
    if entries != [] {
      var init := entries[..|entries| - 1];
      CandidatesMembers(init, p);
      if exists i :: 0 <= i < |entries| && entries[i].path == p && IsCandidate(entries[i]) {
        var i :| 0 <= i < |entries| && entries[i].path == p && IsCandidate(entries[i]);
        if i < |init| {
          assert init[i] == entries[i];
        }
      }
      if exists i :: 0 <= i < |init| && init[i].path == p && IsCandidate(init[i]) {
        var i :| 0 <= i < |init| && init[i].path == p && IsCandidate(init[i]);
        assert entries[i] == init[i];
      }
    }
  }

  /** The number of walked entries that pass the candidate test. */
  function CandidateCount(entries: seq<Entry>): nat {
    if entries == [] then 0
    else CandidateCount(entries[..|entries| - 1]) + (if IsCandidate(entries[|entries| - 1]) then 1 else 0)
  }

  /** One path is collected per candidate entry. */
  lemma {:induction false} CandidatesCount(entries: seq<Entry>)
    ensures |Candidates(entries)| == CandidateCount(entries)
  {
    if entries != [] {
      CandidatesCount(entries[..|entries| - 1]);
    }
  }

  // ---------------------------------------------------------------------------
  // Decision on the number of candidates (main.go:93-102)
  // ---------------------------------------------------------------------------

  /** The elements of `xs` with `sep` between neighbours (strings.Join). */
  function Join(xs: seq<string>, sep: string): string {
    if xs == [] then ""
    else if |xs| == 1 then xs[0]
    else xs[0] + sep + Join(xs[1..], sep)
  }

  /** Where the k-th element starts inside Join(xs, sep). */
  function JoinOffset(xs: seq<string>, sep: string, k: nat): nat
    requires k < |xs|
  {
    if k == 0 then 0 else |xs[0]| + |sep| + JoinOffset(xs[1..], sep, k - 1)
  }

  /** Every joined element can be read back at its offset. */
  lemma {:induction false} JoinContains(xs: seq<string>, sep: string, k: nat)
    requires k < |xs|
    ensures JoinOffset(xs, sep, k) + |xs[k]| <= |Join(xs, sep)|
    ensures Join(xs, sep)[JoinOffset(xs, sep, k)..JoinOffset(xs, sep, k) + |xs[k]|] == xs[k]
  {
    if k == 0 {
      if |xs| > 1 {
        var tail := sep + Join(xs[1..], sep);
        assert Join(xs, sep) == xs[0] + tail;
        assert (xs[0] + tail)[..|xs[0]|] == xs[0];
      }
    } else {
      JoinContains(xs[1..], sep, k - 1);
      var o := JoinOffset(xs[1..], sep, k - 1);
      var head := xs[0] + sep;
      var rest := Join(xs[1..], sep);
      assert Join(xs, sep) == head + rest;
      assert (head + rest)[|head| + o..|head| + o + |xs[k]|] == rest[o..o + |xs[k]|];
    }
  }

  /** The text of the error the locator returns. */
  function Message(e: LocateError): string {
    match e
    case NoFilesFound => "no files found"
    case TooManyFiles(paths) => TooManyFilesPrefix + Join(paths, Separator)
  }

  /** `sub` occurs in `s` starting at index `o`. */
  predicate OccursAt(s: string, sub: string, o: int) {
    0 <= o && o + |sub| <= |s| && s[o..o + |sub|] == sub
  }

  /** The "too many files" message names every candidate path. */
  lemma MessageListsEveryPath(paths: seq<string>, k: nat)
    requires k < |paths|
    ensures exists o :: OccursAt(Message(TooManyFiles(paths)), paths[k], o)
  {
    JoinContains(paths, Separator, k);
    var o := JoinOffset(paths, Separator, k);
    var m := Message(TooManyFiles(paths));
    assert m[|TooManyFilesPrefix| + o..|TooManyFilesPrefix| + o + |paths[k]|]
        == Join(paths, Separator)[o..o + |paths[k]|];
    assert OccursAt(m, paths[k], |TooManyFilesPrefix| + o);
  }

  /** No candidate is an error, several are an error that lists them all, and
      exactly one is the answer. */
  function Decide(found: seq<string>): (r: Result<string, LocateError>)
    ensures r == Failure(NoFilesFound) <==> |found| == 0
    ensures r.Success? <==> |found| == 1
    ensures r.Success? ==> r.value == found[0]
    ensures r.Failure? && r.error.TooManyFiles? <==> |found| > 1
    ensures r.Failure? && r.error.TooManyFiles? ==> r.error.paths == found
  {
    if |found| == 0 then Failure(NoFilesFound)
    else if |found| > 1 then Failure(TooManyFiles(found))
    else Success(found[0])
  }

  /** Over a whole walk: no candidate entry gives "no files found", several give
      the error listing their paths, and exactly one gives the path of that entry. */
  lemma WalkDecision(entries: seq<Entry>)
    ensures Decide(Candidates(entries)) == Failure(NoFilesFound) <==> CandidateCount(entries) == 0
    ensures Decide(Candidates(entries)).Failure? && Decide(Candidates(entries)).error.TooManyFiles? <==>
              CandidateCount(entries) > 1
    ensures Decide(Candidates(entries)).Success? <==> CandidateCount(entries) == 1
    ensures Decide(Candidates(entries)).Success? ==>
              exists i :: 0 <= i < |entries| && IsCandidate(entries[i]) &&
                          entries[i].path == Decide(Candidates(entries)).value
  {
    CandidatesCount(entries);
    var found := Candidates(entries);
    if |found| == 1 {
      CandidatesMembers(entries, found[0]);
    }
  }

  /** findReportFileName over the entries of the walk: collect the candidates in
      walk order, then decide on their number. */
  method FindReportFileName(entries: seq<Entry>) returns (r: Result<string, LocateError>)
    ensures r == Decide(Candidates(entries))
  {
    var foundFiles: seq<string> := [];
    var i := 0;
    while i < |entries|
      invariant 0 <= i <= |entries|
      invariant foundFiles == Candidates(entries[..i])
    {
      var e := entries[i];
      if !e.isDir && HasSuffix(e.name, ReportSuffix) {
        var matchedFile := GlobMatch(ReportPattern, e.name);
        if matchedFile {
          foundFiles := foundFiles + [e.path];
        }
      }
      assert entries[..i + 1][..i] == entries[..i];
      i := i + 1;
    }
    assert entries[..i] == entries;
    r := Decide(foundFiles);
  }
}
