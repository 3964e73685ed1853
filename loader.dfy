/**
 * Report loading (main.go, loadFindings): strip the assignment prefix that
 * precedes the JSON payload, and keep the findings whose level is "danger".
 * Reading the file and decoding the JSON are not part of this model; the
 * filter starts from an already-decoded report.
 */
module Loader {
  import opened Report

  type byte = b: int | 0 <= b < 256

  /** The byte `{` that opens the JSON payload. */
  const OpenBrace: byte := 0x7B

  // ---------------------------------------------------------------------------
  // Prefix stripping (main.go:119-120)
  // ---------------------------------------------------------------------------

  /** Index of the first occurrence of `c` in `b`, or -1 when `c` does not occur
      (bytes.Index with a one-byte needle). */
  function IndexOf(b: seq<byte>, c: byte): (i: int)
    ensures -1 <= i < |b|
    ensures i == -1 <==> c !in b
    ensures 0 <= i ==> b[i] == c && c !in b[..i]
  {
    if b == [] then -1
    else if b[0] == c then 0
    else
      var j := IndexOf(b[1..], c);
      if j == -1 then -1 else j + 1
  }

  /** The report bytes from the first `{` on. When no `{` occurs the program
      slices at -1 and panics, so the caller must supply one. */
  function StripReportPrefix(b: seq<byte>): (r: seq<byte>)
    requires OpenBrace in b
    ensures 0 < |r| <= |b|
    ensures r == b[|b| - |r|..]
    ensures r[0] == OpenBrace
    ensures OpenBrace !in b[..|b| - |r|]
  {
    b[IndexOf(b, OpenBrace)..]
  }

  /** The stripped payload is the only suffix of the input that starts with `{`
      and leaves no `{` behind it. */
  lemma StripReportPrefixUnique(b: seq<byte>, n: nat)
    requires n < |b| && b[n] == OpenBrace && OpenBrace !in b[..n]
    ensures StripReportPrefix(b) == b[n..]
  {
  }

  /** Stripping is idempotent: a payload that already starts with `{` is kept whole. */
  lemma StripReportPrefixIdempotent(b: seq<byte>)
    requires OpenBrace in b
    ensures OpenBrace in StripReportPrefix(b)
    ensures StripReportPrefix(StripReportPrefix(b)) == StripReportPrefix(b)
  {
    var r := StripReportPrefix(b);
    assert r[0] == OpenBrace;
    StripReportPrefixUnique(r, 0);
  }

  // ---------------------------------------------------------------------------
  // Danger filter (main.go:130-137)
  // ---------------------------------------------------------------------------

  /** All findings of the report, service after service. */
  function Flatten(report: ScoutSuiteReport): seq<Finding> {
    if report == [] then [] else Flatten(report[..|report| - 1]) + report[|report| - 1]
  }

  /** Flattening neither loses nor invents findings. */
  lemma {:induction false} FlattenMembers(report: ScoutSuiteReport)
    ensures forall s, j :: 0 <= s < |report| && 0 <= j < |report[s]| ==> report[s][j] in Flatten(report)
    ensures forall f :: f in Flatten(report) ==> exists s :: 0 <= s < |report| && f in report[s]
  {
    if report != [] {
      var init := report[..|report| - 1];
      FlattenMembers(init);
      assert forall s :: 0 <= s < |init| ==> init[s] == report[s];
    }
  }

  /** The danger findings of `fs`, in their original order. */
  function DangerOnly(fs: seq<Finding>): (r: seq<Finding>)
    ensures |r| <= |fs|
  {
    if fs == [] then []
    else
      var last := fs[|fs| - 1];
      DangerOnly(fs[..|fs| - 1]) + (if IsDanger(last) then [last] else [])
  }

  /** Every kept finding is a danger finding of the input, and every danger
      finding of the input is kept. */
  lemma {:induction false} DangerOnlyMembers(fs: seq<Finding>)
    ensures forall f :: f in DangerOnly(fs) ==> IsDanger(f) && f in fs
    ensures forall f :: f in fs && IsDanger(f) ==> f in DangerOnly(fs)
  {
    if fs != [] {
      var init := fs[..|fs| - 1];
      DangerOnlyMembers(init);
      assert fs == init + [fs[|fs| - 1]];
    }
  }

  /** The number of danger findings in `fs`. */
  function DangerCount(fs: seq<Finding>): nat {
    if fs == [] then 0
    else DangerCount(fs[..|fs| - 1]) + (if IsDanger(fs[|fs| - 1]) then 1 else 0)
  }

  /** The filtered list holds one entry per danger finding of the input. */
  lemma {:induction false} DangerOnlyLength(fs: seq<Finding>)
    ensures |DangerOnly(fs)| == DangerCount(fs)
  {
    if fs != [] {
      DangerOnlyLength(fs[..|fs| - 1]);
    }
  }

  /** Positions of the danger findings of `fs`, in increasing order. */
  function DangerPositions(fs: seq<Finding>): (ps: seq<nat>)
    ensures forall k :: 0 <= k < |ps| ==> ps[k] < |fs|
  {
    if fs == [] then []
    else
      DangerPositions(fs[..|fs| - 1]) + (if IsDanger(fs[|fs| - 1]) then [|fs| - 1] else [])
  }

  lemma {:induction false} DangerOnlyAppend(a: seq<Finding>, b: seq<Finding>)
    ensures DangerOnly(a + b) == DangerOnly(a) + DangerOnly(b)
    decreases |b|
  {
    if b == [] {
      assert a + b == a;
    } else {
      var init := b[..|b| - 1];
      assert (a + b)[..|a + b| - 1] == a + init;
      DangerOnlyAppend(a, init);
    }
  }

  /** The danger positions increase strictly, and a position is listed iff the
      finding there is a danger finding. */
  lemma {:induction false} DangerPositionsExact(fs: seq<Finding>)
    ensures forall k, l :: 0 <= k < l < |DangerPositions(fs)| ==> DangerPositions(fs)[k] < DangerPositions(fs)[l]
    ensures forall j :: 0 <= j < |fs| ==> (IsDanger(fs[j]) <==> j in DangerPositions(fs))
  {
    if fs != [] {
      var init := fs[..|fs| - 1];
      DangerPositionsExact(init);
      assert forall j :: 0 <= j < |init| ==> fs[j] == init[j];
    }
  }

  /** The filtered list is exactly the order-preserving danger sub-sequence:
      its k-th element is the finding at the k-th danger position (positions
      described by DangerPositionsExact). */
  lemma {:induction false} DangerOnlyIsDangerSubsequence(fs: seq<Finding>)
    ensures |DangerOnly(fs)| == |DangerPositions(fs)|
    ensures forall k :: 0 <= k < |DangerOnly(fs)| ==> DangerOnly(fs)[k] == fs[DangerPositions(fs)[k]]
  {
    if fs != [] {
      var init := fs[..|fs| - 1];
      DangerOnlyIsDangerSubsequence(init);
      assert forall j :: 0 <= j < |init| ==> fs[j] == init[j];
    }
  }

  /** Each finding occurs in the result exactly as often as it occurs in the
      input when it is a danger finding, and not at all otherwise; in particular
      the result has one entry per danger finding of the input. */
  lemma {:induction false} DangerOnlyCounts(fs: seq<Finding>, f: Finding)
    ensures multiset(DangerOnly(fs))[f] == if IsDanger(f) then multiset(fs)[f] else 0
  {
    if fs != [] {
      var init := fs[..|fs| - 1];
      DangerOnlyCounts(init, f);
      assert fs == init + [fs[|fs| - 1]];
    }
  }

  /** The danger findings of each service, one service after another. */
  function DangerByService(report: ScoutSuiteReport): (r: seq<seq<Finding>>)
    ensures |r| == |report|
  {
    seq(|report|, s requires 0 <= s < |report| => DangerOnly(report[s]))
  }

  /** Filtering the flattened report equals concatenating, in service order,
      the danger findings of each service. */
  lemma {:induction false} DangerOnlyByService(report: ScoutSuiteReport)
    ensures DangerOnly(Flatten(report)) == Flatten(DangerByService(report))
  {
    if report != [] {
      var init := report[..|report| - 1];
      DangerOnlyByService(init);
      assert DangerByService(report)[..|report| - 1] == DangerByService(init);
      DangerOnlyAppend(Flatten(init), report[|report| - 1]);
    }
  }

  /** Over a whole report: every kept finding is danger and comes from some
      service, and every danger finding of every service is kept. */
  lemma ReportFilterSoundAndComplete(report: ScoutSuiteReport)
    ensures forall f :: f in DangerOnly(Flatten(report)) ==>
              IsDanger(f) && exists s :: 0 <= s < |report| && f in report[s]
    ensures forall s, j :: 0 <= s < |report| && 0 <= j < |report[s]| && IsDanger(report[s][j]) ==>
              report[s][j] in DangerOnly(Flatten(report))
  {
    FlattenMembers(report);
    DangerOnlyMembers(Flatten(report));
  }

  /** One more finding extends the filtered prefix by that finding when it is danger. */
  lemma DangerOnlyStep(fs: seq<Finding>, j: nat)
    requires j < |fs|
    ensures DangerOnly(fs[..j + 1]) == DangerOnly(fs[..j]) + (if IsDanger(fs[j]) then [fs[j]] else [])
  {
    assert fs[..j + 1][..j] == fs[..j];
  }

  /** One more service extends the filtered prefix by that service's danger findings. */
  lemma FlattenStep(report: ScoutSuiteReport, s: nat)
    requires s < |report|
    ensures DangerOnly(Flatten(report[..s + 1])) == DangerOnly(Flatten(report[..s])) + DangerOnly(report[s])
  {
    assert report[..s + 1][..s] == report[..s];
    DangerOnlyAppend(Flatten(report[..s]), report[s]);
  }

  /** The nested loop of loadFindings: services in order, findings in order,
      appending every danger finding. */
  method LoadDangerFindings(report: ScoutSuiteReport) returns (dangerFindings: seq<Finding>)
    ensures dangerFindings == DangerOnly(Flatten(report))
  {
    dangerFindings := [];
    var s := 0;
    while s < |report|
      invariant 0 <= s <= |report|
      invariant dangerFindings == DangerOnly(Flatten(report[..s]))
    {
      var service := report[s];
      ghost var before := dangerFindings;
      var j := 0;
      while j < |service|
        invariant 0 <= j <= |service|
        invariant dangerFindings == before + DangerOnly(service[..j])
      {
        var finding := service[j];
        if IsDanger(finding) {
          dangerFindings := dangerFindings + [finding];
        }
        DangerOnlyStep(service, j);
        j := j + 1;
      }
      assert service[..j] == service;
      FlattenStep(report, s);
      s := s + 1;
    }
    assert report[..s] == report;
  }
}
