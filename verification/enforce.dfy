/**
 * The `policy enforce` command (cmd/enforce.go): the aggregation of the
 * per-package check results into the command's outcome, and the
 * post-processing of the package lister's output.
 *
 * The per-package checks run concurrently and deliver their results over a
 * channel in an order the model does not fix: `Check` takes the results in
 * the order they arrive.
 */
module Enforce {
  import opened Wrappers
  import TextUtil
  import opened PolicyChecker

  /** Total number of errors over the results. */
  function TotalErrors(results: seq<CheckResult>): nat
  {
    if results == [] then 0
    else TotalErrors(results[..|results| - 1]) + |results[|results| - 1].errs|
  }

  /** The command's error for a total of `errCount` errors. */
  function FoundMessage(errCount: nat): string
  {
    "found " + TextUtil.NatToString(errCount) + " error(s)"
  }

  /**
   * `check`: reads one result per package, adds up their errors, and fails
   * with "found K error(s)" exactly when the total K is positive. Warnings
   * play no part.
   */
  method Check(pkgs: seq<string>, received: seq<CheckResult>) returns (err: Option<string>)
    requires |received| == |pkgs|
    ensures err.Some? <==> TotalErrors(received) > 0
    ensures err.Some? ==> err.value == FoundMessage(TotalErrors(received))
  {
    var pkgCount := |pkgs|;
    var errCount := 0;
    for i := 0 to pkgCount
      invariant errCount == TotalErrors(received[..i])
    {
      var result := received[i];
      assert received[..i + 1][..i] == received[..i];
      errCount := errCount + |result.errs|;
    }
    assert received[..pkgCount] == received;
    if errCount > 0 {
      return Some(FoundMessage(errCount));
    }
    return None;
  }

  lemma {:induction false} TotalErrorsAppend(a: seq<CheckResult>, b: seq<CheckResult>)
    ensures TotalErrors(a + b) == TotalErrors(a) + TotalErrors(b)
    decreases |b|
  {
    if b == [] {
      assert a + b == a;
    } else {
      assert (a + b)[..|a + b| - 1] == a + b[..|b| - 1];
      TotalErrorsAppend(a, b[..|b| - 1]);
    }
  }

  /** The total, and so the outcome of `Check`, does not depend on the order in which results arrive. */
  lemma {:induction false} TotalErrorsPermutation(a: seq<CheckResult>, b: seq<CheckResult>)
    requires multiset(a) == multiset(b)
    ensures TotalErrors(a) == TotalErrors(b)
    decreases |a|
  {
    if a != [] {
      var x := a[|a| - 1];
      var a' := a[..|a| - 1];
      assert a == a' + [x];
      assert x in multiset(b);
      var j :| 0 <= j < |b| && b[j] == x;
      var b' := b[..j] + b[j + 1..];
      assert b == b[..j] + [x] + b[j + 1..];
      assert multiset(a') == multiset(a) - multiset{x} by {
        assert multiset(a) == multiset(a') + multiset{x};
      }
      assert multiset(b') == multiset(b) - multiset{x} by {
        assert multiset(b) == multiset(b[..j]) + multiset{x} + multiset(b[j + 1..]);
        assert multiset(b') == multiset(b[..j]) + multiset(b[j + 1..]);
      }
      TotalErrorsPermutation(a', b');
      TotalErrorsAppend(a', [x]);
      TotalErrorsAppend(b[..j] + [x], b[j + 1..]);
      TotalErrorsAppend(b[..j], [x]);
      TotalErrorsAppend(b[..j], b[j + 1..]);
    }
  }

  /** Warnings never count: results with the same errors give the same total. */
  lemma {:induction false} WarningsIgnored(a: seq<CheckResult>, b: seq<CheckResult>)
    requires |a| == |b|
    requires forall i :: 0 <= i < |a| ==> a[i].errs == b[i].errs
    ensures TotalErrors(a) == TotalErrors(b)
  {
    if a != [] {
      WarningsIgnored(a[..|a| - 1], b[..|b| - 1]);
    }
  }

  /** The outcome of running the package lister: its output streams and whether it failed. */
  datatype ListRun = ListRun(stdout: string, stderr: string, failed: bool)

  /**
   * `retrievePackages`: on failure, no packages and the error text of stderr;
   * otherwise the lines of stdout, that is its pieces between newlines
   * without the last one.
   */
  function RetrievePackages(run: ListRun): (r: (seq<string>, Option<string>))
    ensures run.failed ==> r.0 == [] && r.1 == Some(run.stderr)
    ensures !run.failed ==> r.1 == None && |r.0| == TextUtil.CountChar(run.stdout, '\n')
    ensures !run.failed && run.stdout == "" ==> r.0 == []
    ensures forall i :: 0 <= i < |r.0| ==> '\n' !in r.0[i]
  {
    if run.failed then ([], Some(run.stderr))
    else
      var pieces := TextUtil.Split(run.stdout, '\n');
      TextUtil.SplitLength(run.stdout, '\n');
      TextUtil.SplitPiecesFree(run.stdout, '\n');
      (pieces[..|pieces| - 1], None)
  }

  /** Each text followed by a newline, concatenated. */
  function Lines(ls: seq<string>): string
  {
    if ls == [] then "" else ls[0] + "\n" + Lines(ls[1..])
  }

  /** Joining pieces with newlines is writing all but the last as lines, then the last. */
  lemma {:induction false} JoinAsLines(parts: seq<string>)
    requires |parts| >= 1
    ensures TextUtil.Join(parts, '\n') == Lines(parts[..|parts| - 1]) + parts[|parts| - 1]
    decreases |parts|
  {
    if |parts| > 1 {
      JoinAsLines(parts[1..]);
      assert parts[..|parts| - 1][1..] == parts[1..][..|parts[1..]| - 1];
      assert parts[..|parts| - 1][0] == parts[0];
    }
  }

  /**
   * Writing the packages back as lines gives the lister's output up to its
   * last newline: only text after the last newline is dropped, so an output
   * that is empty or ends with a newline is reproduced exactly.
   */
  lemma RetrievePackagesRoundTrip(run: ListRun)
    requires !run.failed
    ensures Lines(RetrievePackages(run).0) + TextUtil.Split(run.stdout, '\n')[TextUtil.CountChar(run.stdout, '\n')] == run.stdout
    ensures run.stdout == "" || run.stdout[|run.stdout| - 1] == '\n' ==> Lines(RetrievePackages(run).0) == run.stdout
  {
    var pieces := TextUtil.Split(run.stdout, '\n');
    TextUtil.SplitLength(run.stdout, '\n');
    TextUtil.JoinSplit(run.stdout, '\n');
    JoinAsLines(pieces);
    if run.stdout != "" && run.stdout[|run.stdout| - 1] == '\n' {
      LastPieceAfterNewline(run.stdout);
    }
  }

  /** Text ending with a newline splits into pieces whose last one is empty. */
  lemma {:induction false} LastPieceAfterNewline(s: string)
    requires s != [] && s[|s| - 1] == '\n'
    ensures TextUtil.Split(s, '\n')[|TextUtil.Split(s, '\n')| - 1] == ""
    decreases |s|
  {
    if |s| > 1 {
      LastPieceAfterNewline(s[1..]);
    }
  }
}
