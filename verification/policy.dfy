/**
  The threshold policy: the coverage table sorted by file name, a violation
  for each file strictly under the modified-file threshold in table order, the
  sorted list of unreported names, and last a violation when the whole project
  is strictly under the total-project threshold. One flag decides whether
  every violation fails the build or only warns.
 */
module Policy {
  import opened Lex
  import opened Sorting
  import opened Jacoco
  import opened Aggregator

  /** `fail` blocks the build; `warn` only annotates it. */
  datatype Severity = Fail | Warn

  datatype Scope = FileScope(fileName: string) | ProjectScope

  /** One call of Danger's `fail` or `warn`, with the threshold its message names. */
  datatype Violation = Violation(scope: Scope, threshold: int, severity: Severity)

  /** The three configuration parameters after the report path. */
  datatype Thresholds = Thresholds(totalProject: int, modifiedFile: int, failIfUnderThreshold: bool)

  /** Parameter defaults: 90% for both thresholds, and failing rather than warning. */
  const Defaults := Thresholds(90, 90, true)

  /** The table and the violations one run produces, in the order the plugin emits them. */
  datatype Outcome = Outcome(
    project: Counter,
    rows: seq<FileCoverage>,
    unreported: seq<string>,
    violations: seq<Violation>)

  /** `fail` when the flag is set, `warn` otherwise. */
  function SeverityOf(failIfUnderThreshold: bool): (r: Severity)
    ensures r == Fail <==> failIfUnderThreshold
    ensures r == Warn <==> !failIfUnderThreshold
  {
    if failIfUnderThreshold then Fail else Warn
  }

  /** The file a violation is about; the project violation sorts as the empty name. */
  function ViolationName(v: Violation): string
  {
    match v.scope
    case FileScope(n) => n
    case ProjectScope => ""
  }

  /** Walk the table in order and emit a violation for every row strictly under `threshold`. */
  function FileViolations(rows: seq<FileCoverage>, threshold: int, severity: Severity): (r: seq<Violation>)
    ensures |r| <= |rows|
    ensures forall v :: v in r ==> v.scope.FileScope? && v.threshold == threshold && v.severity == severity
    decreases |rows|
  {
    if |rows| == 0 then []
    else
      var rest := FileViolations(rows[1..], threshold, severity);
      if Below(rows[0].instructions, threshold) then
        [Violation(FileScope(rows[0].name), threshold, severity)] + rest
      else
        rest
  }

  /**
    Every row strictly under the threshold gets a violation, and every
    violation is about such a row.
   */
  lemma {:induction false} FileViolationsExact(rows: seq<FileCoverage>, threshold: int, severity: Severity)
    ensures forall k :: 0 <= k < |rows| && Below(rows[k].instructions, threshold) ==>
              Violation(FileScope(rows[k].name), threshold, severity) in FileViolations(rows, threshold, severity)
    ensures forall v :: v in FileViolations(rows, threshold, severity) ==>
              exists k :: 0 <= k < |rows| && rows[k].name == v.scope.fileName && Below(rows[k].instructions, threshold)
    decreases |rows|
  {
    if |rows| > 0 {
      var tail := rows[1..];
      FileViolationsExact(tail, threshold, severity);
      assert forall k :: 1 <= k < |rows| ==> rows[k] == tail[k - 1];
    }
  }

  /**
    On a table with distinct names, a row has a violation exactly when it is
    strictly under the threshold.
   */
  lemma FileViolationsPerRow(rows: seq<FileCoverage>, threshold: int, severity: Severity)
    requires DistinctKeys(rows, NameOf)
    ensures forall f :: f in rows ==>
              (Violation(FileScope(f.name), threshold, severity) in FileViolations(rows, threshold, severity)
               <==> Below(f.instructions, threshold))
  {
    FileViolationsExact(rows, threshold, severity);
    forall f | f in rows
      ensures Violation(FileScope(f.name), threshold, severity) in FileViolations(rows, threshold, severity)
              ==> Below(f.instructions, threshold)
    {
      var k :| 0 <= k < |rows| && rows[k] == f;
      var v := Violation(FileScope(f.name), threshold, severity);
      if v in FileViolations(rows, threshold, severity) {
        var m :| 0 <= m < |rows| && rows[m].name == f.name && Below(rows[m].instructions, threshold);
        assert NameOf(rows[m]) == NameOf(rows[k]);
      }
    }
  }

  /** A name with no row in the table has no violation. */
  lemma UnlistedNameHasNoViolation(rows: seq<FileCoverage>, n: string, threshold: int, severity: Severity)
    requires n !in Keys(rows, NameOf)
    ensures Violation(FileScope(n), threshold, severity) !in FileViolations(rows, threshold, severity)
  {
    FileViolationsExact(rows, threshold, severity);
    forall k | 0 <= k < |rows| ensures rows[k].name != n {
      assert NameOf(rows[k]) in Keys(rows, NameOf);
    }
  }

  /** Per-file violations come out in the order of the table they are read from. */
  lemma {:induction false} FileViolationsInTableOrder(rows: seq<FileCoverage>, threshold: int, severity: Severity)
    requires SortedBy(rows, NameOf)
    ensures SortedBy(FileViolations(rows, threshold, severity), ViolationName)
    ensures DistinctKeys(rows, NameOf) ==> DistinctKeys(FileViolations(rows, threshold, severity), ViolationName)
    decreases |rows|
  {
    if |rows| > 0 {
      var rest := FileViolations(rows[1..], threshold, severity);
      var tail := rows[1..];
      assert SortedBy(tail, NameOf) by {
        forall i, j | 0 <= i < j < |tail| ensures LexLeq(NameOf(tail[i]), NameOf(tail[j])) {
          assert tail[i] == rows[i + 1] && tail[j] == rows[j + 1];
        }
      }
      FileViolationsInTableOrder(tail, threshold, severity);
      FileViolationsExact(tail, threshold, severity);
      forall i | 0 <= i < |rest|
        ensures LexLeq(rows[0].name, ViolationName(rest[i]))
        ensures DistinctKeys(rows, NameOf) ==> rows[0].name != ViolationName(rest[i])
      {
        assert rest[i] in rest;
        var k :| 0 <= k < |tail| && tail[k].name == rest[i].scope.fileName && Below(tail[k].instructions, threshold);
        assert tail[k] == rows[k + 1];
      }
      if Below(rows[0].instructions, threshold) {
        var v := Violation(FileScope(rows[0].name), threshold, severity);
        assert ViolationName(v) == rows[0].name;
        SortedCons(v, rest, ViolationName);
        if DistinctKeys(rows, NameOf) {
          assert DistinctKeys(tail, NameOf) by {
            forall i, j | 0 <= i < j < |tail| ensures NameOf(tail[i]) != NameOf(tail[j]) {
              assert tail[i] == rows[i + 1] && tail[j] == rows[j + 1];
            }
          }
          assert ViolationName(v) !in Keys(rest, ViolationName);
          DistinctCons(v, rest, ViolationName);
        }
      } else {
        if DistinctKeys(rows, NameOf) {
          assert DistinctKeys(tail, NameOf) by {
            forall i, j | 0 <= i < j < |tail| ensures NameOf(tail[i]) != NameOf(tail[j]) {
              assert tail[i] == rows[i + 1] && tail[j] == rows[j + 1];
            }
          }
        }
      }
    }
  }

  /** The project violation, if the project is strictly under its threshold. */
  function ProjectViolations(project: Counter, threshold: int, severity: Severity): (r: seq<Violation>)
    ensures |r| <= 1
    ensures |r| == 1 <==> Below(project, threshold)
    ensures forall v :: v in r ==> v == Violation(ProjectScope, threshold, severity)
  {
    if Below(project, threshold) then [Violation(ProjectScope, threshold, severity)] else []
  }

  /**
    The policy step: sort the hash entries and the unreported names, emit the
    per-file violations in table order, then the project violation.
   */
  function Evaluate(project: Counter, agg: Aggregate, t: Thresholds): (o: Outcome)
    ensures o.project == project
    ensures SortedBy(o.rows, NameOf) && multiset(o.rows) == multiset(agg.files)
    ensures SortedBy(o.unreported, Identity) && multiset(o.unreported) == multiset(agg.unreported)
  {
    var severity := SeverityOf(t.failIfUnderThreshold);
    var rows := Sort(agg.files, NameOf);
    Outcome(
      project,
      rows,
      Sort(agg.unreported, Identity),
      FileViolations(rows, t.modifiedFile, severity) + ProjectViolations(project, t.totalProject, severity))
  }

  /** A run fails the build when at least one violation was raised with `fail`. */
  predicate Failed(o: Outcome)
  {
    exists i :: 0 <= i < |o.violations| && o.violations[i].severity == Fail
  }

  /** Every violation has the severity the flag picks, for files and project alike. */
  lemma EvaluateSeverity(project: Counter, agg: Aggregate, t: Thresholds)
    ensures forall v :: v in Evaluate(project, agg, t).violations ==>
              (v.severity == Fail <==> t.failIfUnderThreshold)
    ensures Failed(Evaluate(project, agg, t)) <==> t.failIfUnderThreshold && |Evaluate(project, agg, t).violations| > 0
  {
    var o := Evaluate(project, agg, t);
    if |o.violations| > 0 {
      assert o.violations[0] in o.violations;
    }
  }

  /**
    Violations come out as the per-file ones in ascending file-name order, one
    per file, then at most one project violation, which is last.
   */
  lemma EvaluateViolationOrder(project: Counter, agg: Aggregate, t: Thresholds)
    requires DistinctKeys(agg.files, NameOf)
    ensures var vs := Evaluate(project, agg, t).violations;
      && (forall i :: 0 <= i < |vs| - 1 ==> vs[i].scope.FileScope?)
      && (forall i, j :: 0 <= i < j < |vs| && vs[j].scope.FileScope? ==> LexLeq(ViolationName(vs[i]), ViolationName(vs[j])))
      && (forall i, j :: 0 <= i < j < |vs| && vs[j].scope.FileScope? ==> ViolationName(vs[i]) != ViolationName(vs[j]))
  {
    var o := Evaluate(project, agg, t);
    var severity := SeverityOf(t.failIfUnderThreshold);
    SortKeepsDistinctKeys(agg.files, NameOf);
    var fileVs := FileViolations(o.rows, t.modifiedFile, severity);
    var projVs := ProjectViolations(project, t.totalProject, severity);
    FileViolationsInTableOrder(o.rows, t.modifiedFile, severity);
    var vs := o.violations;
    assert vs == fileVs + projVs;
    forall i | 0 <= i < |vs| - 1 ensures vs[i].scope.FileScope? {
      assert vs[i] == fileVs[i];
      assert fileVs[i] in fileVs;
    }
    forall i, j | 0 <= i < j < |vs| && vs[j].scope.FileScope?
      ensures LexLeq(ViolationName(vs[i]), ViolationName(vs[j]))
      ensures ViolationName(vs[i]) != ViolationName(vs[j])
    {
      if j >= |fileVs| {
        assert false;
      }
      assert vs[i] == fileVs[i] && vs[j] == fileVs[j];
    }
  }

  /**
    A hash entry gets a violation exactly when its coverage is strictly under
    the modified-file threshold; the project gets one exactly when its own
    coverage is strictly under the total-project threshold.
   */
  lemma EvaluateViolations(project: Counter, agg: Aggregate, t: Thresholds)
    requires DistinctKeys(agg.files, NameOf)
    ensures forall f :: f in agg.files ==>
              (Violation(FileScope(f.name), t.modifiedFile, SeverityOf(t.failIfUnderThreshold)) in Evaluate(project, agg, t).violations
               <==> Below(f.instructions, t.modifiedFile))
    ensures Violation(ProjectScope, t.totalProject, SeverityOf(t.failIfUnderThreshold)) in Evaluate(project, agg, t).violations
            <==> Below(project, t.totalProject)
  {
    var o := Evaluate(project, agg, t);
    var severity := SeverityOf(t.failIfUnderThreshold);
    var fileVs := FileViolations(o.rows, t.modifiedFile, severity);
    var projVs := ProjectViolations(project, t.totalProject, severity);
    assert o.violations == fileVs + projVs;
    SortKeepsDistinctKeys(agg.files, NameOf);
    FileViolationsPerRow(o.rows, t.modifiedFile, severity);
    forall f | f in agg.files
      ensures Violation(FileScope(f.name), t.modifiedFile, severity) in o.violations
              <==> Below(f.instructions, t.modifiedFile)
    {
      assert f in multiset(o.rows);
      assert Violation(FileScope(f.name), t.modifiedFile, severity) !in projVs;
    }
  }

  /**
    Nothing else is raised: every file violation is for a hash entry strictly
    under the modified-file threshold and carries that threshold, and the
    project violation carries the total-project threshold and is raised only
    when the project is strictly under it.
   */
  lemma EvaluateRaisesNothingElse(project: Counter, agg: Aggregate, t: Thresholds)
    ensures var severity := SeverityOf(t.failIfUnderThreshold);
      forall v :: v in Evaluate(project, agg, t).violations ==>
        && (v.scope.FileScope? ==>
              && v == Violation(FileScope(v.scope.fileName), t.modifiedFile, severity)
              && exists f :: f in agg.files && f.name == v.scope.fileName && Below(f.instructions, t.modifiedFile))
        && (v.scope.ProjectScope? ==>
              v == Violation(ProjectScope, t.totalProject, severity) && Below(project, t.totalProject))
  {
    var o := Evaluate(project, agg, t);
    var severity := SeverityOf(t.failIfUnderThreshold);
    var fileVs := FileViolations(o.rows, t.modifiedFile, severity);
    var projVs := ProjectViolations(project, t.totalProject, severity);
    assert o.violations == fileVs + projVs;
    FileViolationsExact(o.rows, t.modifiedFile, severity);
    forall v | v in o.violations && v.scope.FileScope?
      ensures exists f :: f in agg.files && f.name == v.scope.fileName && Below(f.instructions, t.modifiedFile)
    {
      assert v in fileVs;
      var k :| 0 <= k < |o.rows| && o.rows[k].name == v.scope.fileName && Below(o.rows[k].instructions, t.modifiedFile);
      assert o.rows[k] in multiset(agg.files);
    }
  }
}
