# ScoutSuite finding navigator — verified model

The program loads a ScoutSuite AWS audit report from the `scans/` directory,
keeps only the findings whose level is `danger`, and lets an operator page
through them one key press at a time. This project models the three pieces of
that program whose logic can be stated precisely, and proves what they promise:

- **Report locator** (`locator.dfy`, module `Locator`). The directory walk is given
  as the sequence of `(path, name, isDir)` entries it visits. Every entry that is
  not a directory becomes a candidate when its name ends in `.js` and matches the glob
  `scoutsuite_results_aws-*.js`. Glob matching is defined for patterns of literals
  and `*`, where `*` matches any run of characters except `/`, as `filepath.Match`
  does on Unix.
  The lemmas show that the fixed pattern means "prefix, anything without `/`, `.js`".
  Candidates are kept in walk order. Then the count decides: none is `no files found`,
  several is an error listing every path joined by `", "`, and one is the answer.
- **Report loader** (`loader.dfy`, module `Loader`). The file content is stripped up
  to its first `{`. The decoded report's danger findings are then collected by the
  nested service/finding loop. The report's services and findings are JSON objects,
  which Go iterates in an unspecified order. The model fixes one order and treats it
  as the input order (`ScoutSuiteReport = seq<Service>`, `Service = seq<Finding>`, in module
  `Report`). The loop is proved to return exactly the order-preserving danger
  sub-sequence of the flattened report.
- **Navigator** (`navigator.dfy`, module `Navigator`). The index over the `total`
  findings lives in a local variable of the key-dispatch loop. Key presses come in
  as a sequence. Each output (the redraw, the `p` JSON dump, the `d` question) is
  recorded as an effect naming the finding index it reads. So the proofs show both
  the clamping behaviour and that no output ever reads outside the finding list.

## Model

| member | source | states |
|---|---|---|
| Loader.IndexOf | main.go:120 | bytes.Index for one byte: -1 exactly when the byte is absent; otherwise the position of its first occurrence |
| Loader.StripReportPrefix | main.go:119-120 | for an input that contains `{`, the result is the input from its first `{` on (a non-empty suffix that starts with `{`, with no `{` in the dropped bytes) |
| Loader.StripReportPrefixUnique | main.go:120 | the stripped payload is the only suffix that starts with `{` and drops no `{` |
| Loader.StripReportPrefixIdempotent | main.go:120 | stripping an already stripped payload changes nothing |
| Loader.Flatten | main.go:131-132 | the findings of all services, service after service, each service's findings in order; characterised by FlattenMembers and FlattenStep |
| Loader.FlattenMembers | main.go:131-132 | walking services then their findings visits every finding of every service and nothing else |
| Loader.DangerOnly | main.go:130-137 | the danger findings of a list in their original order, never longer than the list; characterised by DangerOnlyMembers, DangerPositionsExact, DangerOnlyIsDangerSubsequence, DangerOnlyLength and DangerOnlyByService |
| Loader.DangerOnlyMembers | main.go:133-135 | every kept finding is a danger finding of the input; every danger finding of the input is kept |
| Loader.DangerOnlyAppend | main.go:131-136 | filtering a concatenation is the concatenation of the filtered parts (order is kept) |
| Loader.DangerPositionsExact | main.go:132-135 | the positions of kept findings increase strictly, and a position is listed iff the finding there is danger |
| Loader.DangerOnlyIsDangerSubsequence | main.go:130-137 | the k-th kept finding is the input's finding at the k-th danger position: the result is the order-preserving danger sub-sequence |
| Loader.DangerOnlyCounts | main.go:130-137 | each finding occurs in the result as often as in the input if it is danger, and never otherwise |
| Loader.DangerOnlyLength | main.go:130-137 | the result's length equals the number of danger findings in the input |
| Loader.DangerOnlyByService | main.go:131-136 | the filtered report equals the concatenation, in service order, of each service's danger findings in their original order |
| Loader.ReportFilterSoundAndComplete | main.go:130-137 | over a whole report, every kept finding is danger and comes from some service, and every danger finding of every service is kept |
| Loader.DangerOnlyStep | main.go:132-135 | one more finding extends the filtered prefix by that finding exactly when it is danger |
| Loader.FlattenStep | main.go:131-136 | one more service extends the filtered prefix by that service's danger findings |
| Loader.LoadDangerFindings | main.go:130-139 | the nested loop returns exactly the danger findings of the flattened report, in order |
| Locator.GlobMatch | main.go:77 | `filepath.Match` for patterns of literals and `*`, with `*` not crossing `/`; characterised by GlobLiteralPrefix, GlobStarLiteral, PrefixStarSuffix and ReportPatternMatch |
| Locator.GlobLiteralPrefix | main.go:77 | a pattern part without `*` matches exactly the same characters at the front of the name |
| Locator.GlobLiteralOnly | main.go:77 | a pattern without `*` matches only itself |
| Locator.GlobStarLiteral | main.go:77 | `*` followed by a literal matches exactly the names that end in the literal and have no `/` before it |
| Locator.PrefixStarSuffix | main.go:77 | literal, `*`, literal matches exactly the names that carry both literals without overlap and have no `/` between them |
| Locator.PrefixStarSuffixSound | main.go:77 | a name matched by literal, `*`, literal carries the first literal at its start and the second at its end, not overlapping, with no `/` between them |
| Locator.PrefixStarSuffixComplete | main.go:77 | every name that carries both literals that way is matched |
| Locator.ReportPatternMatch | main.go:66-77 | the report pattern matches a name iff it starts with `scoutsuite_results_aws-`, ends in `.js`, is long enough for both, and has no `/` in between |
| Locator.IsCandidate | main.go:75-81 | the walk callback's test: not a directory, name ends in `.js`, and name matches the report pattern; characterised by CandidateIsReportName |
| Locator.CandidateIsReportName | main.go:75-83 | for a base name, an entry is a candidate iff it is not a directory and its name is the report prefix, anything, then `.js` |
| Locator.Candidates | main.go:75-83 | collects the path of each candidate entry in walk order, as the append at main.go:82 does, never more paths than entries; characterised by CandidatesMembers, CandidatesCount and CandidatesAppend |
| Locator.CandidatesAppend | main.go:69-87 | candidates are collected in walk order: a longer walk extends the earlier list |
| Locator.CandidatesMembers | main.go:75-83 | a path is collected iff some walked entry with that path is a candidate |
| Locator.CandidatesCount | main.go:75-83 | exactly one path is collected per entry that passes the candidate test |
| Locator.WalkDecision | main.go:93-102 | in terms of the walk: zero candidate entries give "no files found", more than one give the too-many-files error, and exactly one gives the path of a candidate entry |
| Locator.Join | main.go:98 | `strings.Join`: the elements with the separator between neighbours; characterised by JoinContains |
| Locator.JoinContains | main.go:98 | every element of a strings.Join result can be read back at its offset |
| Locator.Message | main.go:94-99 | the error texts "no files found" and "found too many files. Expected one: " followed by the joined paths; characterised by MessageListsEveryPath |
| Locator.MessageListsEveryPath | main.go:97-100 | the too-many-files error message contains every candidate path |
| Locator.Decide | main.go:93-102 | no candidate gives the "no files found" error, more than one gives the too-many-files error carrying all paths, and exactly one gives that path with no error |
| Locator.FindReportFileName | main.go:64-103 | the walk loop plus decision returns the decision on the walk-ordered candidate list |
| Navigator.Step | main.go:241-261 | `j` adds one except at the last index, `k` subtracts one except at 0, other keys keep the index, `q` alone exits, the index stays in range, `j` and `k` output only the redraw, `p` prints the current finding and `d` asks about it before the redraw, and only `j`, `k`, `p`, `d` redraw |
| Navigator.Advance | main.go:235-261 | reading one more key counts it as read, ends the loop iff the key is `q`, keeps the index in range, and only appends to the output so far |
| Navigator.Replay | main.go:235-264 | from any in-range start, any key sequence keeps the index and every output's index within `[0, total-1]` |
| Navigator.ReplayUpTo | main.go:235-261 | the state after the loop has read the first `n` keys, counted by position; the index stays in range |
| Navigator.ReplayUpToPrefix | main.go:235-261 | reading the first `n` keys by position gives the same state as replaying the first `n` keys |
| Navigator.ReplayUpToAfterQuit | main.go:257-258 | once `q` has been read, reading further positions changes nothing |
| Navigator.ReplayUpToStopped | main.go:235-264 | when the loop has quit or has read every key, its state is the replay of the whole key sequence |
| Navigator.ReplayStopsAtQuit | main.go:257-258 | the loop has quit iff a `q` was pressed, the last key read is the first `q`, and without `q` every key is read |
| Navigator.ReplayIgnoresKeysAfterQuit | main.go:257-258 | once `q` has been read, further keys change nothing |
| Navigator.ReplayWithoutMovesKeepsIndex | main.go:252-260 | a sequence without `j` and `k` (only `p`, `d`, unknown keys) leaves the index where it started |
| Navigator.ReplayForward | main.go:242-246 | n presses of `j` move min(n, total-1-start) places forward |
| Navigator.ReplayBackward | main.go:247-251 | n presses of `k` move min(n, start) places back |
| Navigator.Navigate | main.go:230-264 | the key loop starts at index 0 with one redraw and ends in exactly the state the key-by-key replay describes, with the index and all outputs in range |

## Left out

- The `filepath.Walk` traversal and its panic on an access error (main.go:69-74, 89-91) are filesystem I/O. The walk is given as the sequence of visited entries.
- The error return of `filepath.Match` (main.go:78-80) is left out. It only reports a malformed pattern, and the fixed pattern is well formed.
- GlobMatch models only literals and `*`. The `?`, `[...]` and `\` forms of `filepath.Match` are left out because the report pattern uses none of them.
- GlobMatch uses `/` as the separator that `*` does not cross, as on Unix. On Windows `filepath.Match` stops `*` at `\` instead; that platform is not modelled. On base names the two agree.
- The printed-and-ignored locator error (main.go:108-112) is left out. After it, the program goes on to read the path `""`, which is I/O control flow.
- `ioutil.ReadFile`, `json.Unmarshal` and `json.MarshalIndent` (main.go:114-128, 150-157) are foreign library code. Findings start as already-decoded records, and the `p` output is an effect, not a JSON text.
- Loader.StripReportPrefix: requires a `{` in the input, so its contract says nothing about input without one. There `bytes.Index` returns -1, the program slices at -1 and panics, and the model does not reproduce that crash.
- `askQuestion` (main.go:159-214) is an HTTP call with an environment-variable key and a floating-point temperature. The `d` key is modelled only as an effect on the current finding.
- The API-key check at start-up (main.go:217-221) is an environment read and is left out.
- Keyboard raw mode, `GetKey` and its error panic (main.go:223-228, 236-239) are terminal I/O. Keys arrive as a finite sequence. When it runs out, the model stops without having quit.
- The ANSI redraw of `printFinding` (main.go:142-148) is left out. A redraw is recorded as `Render(index)`, not as its text.
- Navigator.Navigate: requires `total >= 1`. With no findings, the first redraw indexes an empty list and `j` sets the index to -1. That crash is not reproduced.
