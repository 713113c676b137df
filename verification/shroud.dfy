/**
  `DangerShroud#report` as one function: check the report path, read the
  project counter, aggregate the touched files, and apply the policy.
  Reading the file and parsing the XML are replaced by a map from existing
  paths to their parsed reports; git's file lists are parameters.
 */
module Shroud {
  import opened Lex
  import opened Sorting
  import opened Jacoco
  import opened Touched
  import opened Aggregator
  import opened Policy

  /** The ways a run stops before producing any output. */
  datatype Error =
    | MissingFileName            // the report path is empty
    | ReportNotFound(path: string) // nothing exists at the report path
    | MissingRootCounter         // the report has no root INSTRUCTION counter

  datatype Result<T> = Ok(value: T) | Err(error: Error)

  /**
    One run of the plugin. `reports` holds the files that exist, already
    parsed; `modified` and `added` are the paths git reports for the change.
   */
  function Run(
    path: string,
    reports: map<string, ParsedReport>,
    modified: seq<string>,
    added: seq<string>,
    t: Thresholds
  ): (r: Result<Outcome>)
    ensures path == "" ==> r == Err(MissingFileName)
    ensures path != "" && path !in reports ==> r == Err(ReportNotFound(path))
    ensures path != "" && path in reports && reports[path].root.None? ==> r == Err(MissingRootCounter)
    ensures r.Ok? <==> path != "" && path in reports && reports[path].root.Some?
    ensures r.Ok? ==> r.value.project == reports[path].root.value
  {
    if path == "" then Err(MissingFileName)
    else if path !in reports then Err(ReportNotFound(path))
    else
      var report := reports[path];
      match report.root
      case None => Err(MissingRootCounter)
      case Some(project) =>
        var touched := TouchedFileNames(modified, added);
        Ok(Evaluate(project, Aggregated(report.classes, touched), t))
  }

  /**
    The table rows are exactly the touched files the report knows, each once,
    in ascending name order, each with the sum over all of its class records.
   */
  lemma RunRows(
    path: string, reports: map<string, ParsedReport>,
    modified: seq<string>, added: seq<string>, t: Thresholds)
    requires path != "" && path in reports && reports[path].root.Some?
    ensures var o := Run(path, reports, modified, added, t).value;
            var classes := reports[path].classes;
            var touched := TouchedFileNames(modified, added);
      && SortedBy(o.rows, NameOf)
      && DistinctKeys(o.rows, NameOf)
      && (forall f :: f in o.rows ==> f.instructions == FileTotal(classes, f.name))
      && (forall n :: n in Keys(o.rows, NameOf) <==> n in touched && Reported(classes, n))
  {
    var o := Run(path, reports, modified, added, t).value;
    var classes := reports[path].classes;
    var agg := Aggregated(classes, TouchedFileNames(modified, added));
    SortKeepsDistinctKeys(agg.files, NameOf);
    KeysOfPermutation(agg.files, o.rows, NameOf);
    forall f | f in o.rows ensures f.instructions == FileTotal(classes, f.name) {
      assert f in multiset(agg.files);
    }
  }

  /**
    The unreported list holds exactly the touched names the report does not
    know, sorted, duplicates kept; with the table rows it covers every touched
    name, and the two never share a name.
   */
  lemma RunPartition(
    path: string, reports: map<string, ParsedReport>,
    modified: seq<string>, added: seq<string>, t: Thresholds)
    requires path != "" && path in reports && reports[path].root.Some?
    ensures var o := Run(path, reports, modified, added, t).value;
            var classes := reports[path].classes;
            var touched := TouchedFileNames(modified, added);
      && SortedBy(o.unreported, Identity)
      && multiset(o.unreported) == multiset(Unmatched(classes, touched))
      && Keys(o.rows, NameOf) + NameSet(o.unreported) == NameSet(touched)
      && Keys(o.rows, NameOf) !! NameSet(o.unreported)
  {
    var o := Run(path, reports, modified, added, t).value;
    var classes := reports[path].classes;
    var touched := TouchedFileNames(modified, added);
    var agg := Aggregated(classes, touched);
    KeysOfPermutation(agg.files, o.rows, NameOf);
    assert NameSet(o.unreported) == NameSet(agg.unreported) by {
      forall n ensures n in o.unreported <==> n in agg.unreported {
        assert n in o.unreported <==> n in multiset(o.unreported);
        assert n in agg.unreported <==> n in multiset(agg.unreported);
      }
    }
    AggregatePartition(classes, touched);
  }

  /**
    A touched file gets a per-file violation exactly when the report knows it
    and the sum of its class counters is strictly under the modified-file
    threshold.
   */
  lemma RunFileViolations(
    path: string, reports: map<string, ParsedReport>,
    modified: seq<string>, added: seq<string>, t: Thresholds)
    requires path != "" && path in reports && reports[path].root.Some?
    ensures var o := Run(path, reports, modified, added, t).value;
            var classes := reports[path].classes;
      forall n :: n in TouchedFileNames(modified, added) ==>
        (Violation(FileScope(n), t.modifiedFile, SeverityOf(t.failIfUnderThreshold)) in o.violations
         <==> Reported(classes, n) && Below(FileTotal(classes, n), t.modifiedFile))
  {
    var o := Run(path, reports, modified, added, t).value;
    var classes := reports[path].classes;
    var touched := TouchedFileNames(modified, added);
    var agg := Aggregated(classes, touched);
    var project := reports[path].root.value;
    var severity := SeverityOf(t.failIfUnderThreshold);
    assert o == Evaluate(project, agg, t);
    EvaluateViolations(project, agg, t);
    KeysOfPermutation(agg.files, o.rows, NameOf);
    forall n | n in touched
      ensures Violation(FileScope(n), t.modifiedFile, severity) in o.violations
              <==> Reported(classes, n) && Below(FileTotal(classes, n), t.modifiedFile)
    {
      if Reported(classes, n) {
        var i :| 0 <= i < |agg.files| && NameOf(agg.files[i]) == n;
        assert agg.files[i] in agg.files;
      } else {
        UnlistedNameHasNoViolation(o.rows, n, t.modifiedFile, severity);
        assert o.violations == FileViolations(o.rows, t.modifiedFile, severity) + ProjectViolations(project, t.totalProject, severity);
      }
    }
  }

  /**
    A run raises nothing beyond what the table walk and the project check
    ask for: every file violation names a touched file the report knows,
    whose summed counter is strictly under the modified-file threshold, and
    carries that threshold; the project violation carries the total-project
    threshold and appears only when the root counter is strictly under it.
   */
  lemma RunRaisesNothingElse(
    path: string, reports: map<string, ParsedReport>,
    modified: seq<string>, added: seq<string>, t: Thresholds)
    requires path != "" && path in reports && reports[path].root.Some?
    ensures var o := Run(path, reports, modified, added, t).value;
            var classes := reports[path].classes;
            var severity := SeverityOf(t.failIfUnderThreshold);
      forall v :: v in o.violations ==>
        && (v.scope.FileScope? ==>
              && v == Violation(FileScope(v.scope.fileName), t.modifiedFile, severity)
              && v.scope.fileName in TouchedFileNames(modified, added)
              && Reported(classes, v.scope.fileName)
              && Below(FileTotal(classes, v.scope.fileName), t.modifiedFile))
        && (v.scope.ProjectScope? ==>
              v == Violation(ProjectScope, t.totalProject, severity) && Below(o.project, t.totalProject))
  {
    var o := Run(path, reports, modified, added, t).value;
    var classes := reports[path].classes;
    var touched := TouchedFileNames(modified, added);
    var agg := Aggregated(classes, touched);
    var project := reports[path].root.value;
    assert o == Evaluate(project, agg, t);
    EvaluateRaisesNothingElse(project, agg, t);
    forall v | v in o.violations && v.scope.FileScope?
      ensures v.scope.fileName in touched && Reported(classes, v.scope.fileName)
      ensures Below(FileTotal(classes, v.scope.fileName), t.modifiedFile)
    {
      var f :| f in agg.files && f.name == v.scope.fileName && Below(f.instructions, t.modifiedFile);
      var i :| 0 <= i < |agg.files| && agg.files[i] == f;
      assert NameOf(agg.files[i]) in Keys(agg.files, NameOf);
    }
  }

  /**
    The project verdict reads the root counter only: two runs over reports
    with the same root counter and the same thresholds agree on the project
    coverage and on the project violation, whatever their classes and
    touched files.
   */
  lemma ProjectVerdictIgnoresFiles(
    path: string, reports: map<string, ParsedReport>, modified: seq<string>, added: seq<string>,
    path': string, reports': map<string, ParsedReport>, modified': seq<string>, added': seq<string>,
    t: Thresholds)
    requires path != "" && path in reports && reports[path].root.Some?
    requires path' != "" && path' in reports' && reports'[path'].root.Some?
    requires reports[path].root == reports'[path'].root
    ensures var o := Run(path, reports, modified, added, t).value;
            var o' := Run(path', reports', modified', added', t).value;
            var pv := Violation(ProjectScope, t.totalProject, SeverityOf(t.failIfUnderThreshold));
      && o.project == o'.project
      && (pv in o.violations <==> pv in o'.violations)
      && (pv in o.violations <==> Below(o.project, t.totalProject))
  {
    var root := reports[path].root.value;
    EvaluateViolations(root, Aggregated(reports[path].classes, TouchedFileNames(modified, added)), t);
    EvaluateViolations(root, Aggregated(reports'[path'].classes, TouchedFileNames(modified', added')), t);
  }

  /**
    The violations of a run: per-file ones in ascending name order, at most
    one per file, and the project one, if any, last. All carry `fail` when
    the flag is set and `warn` otherwise, so the build fails exactly when the
    flag is set and some violation was raised.
   */
  lemma RunViolationOrderAndSeverity(
    path: string, reports: map<string, ParsedReport>,
    modified: seq<string>, added: seq<string>, t: Thresholds)
    requires path != "" && path in reports && reports[path].root.Some?
    ensures var vs := Run(path, reports, modified, added, t).value.violations;
      && (forall i :: 0 <= i < |vs| - 1 ==> vs[i].scope.FileScope?)
      && (forall i, j :: 0 <= i < j < |vs| && vs[j].scope.FileScope? ==> LexLeq(ViolationName(vs[i]), ViolationName(vs[j])))
      && (forall i, j :: 0 <= i < j < |vs| && vs[j].scope.FileScope? ==> ViolationName(vs[i]) != ViolationName(vs[j]))
      && (forall v :: v in vs ==> (v.severity == Fail <==> t.failIfUnderThreshold))
    ensures Failed(Run(path, reports, modified, added, t).value)
        <==> t.failIfUnderThreshold && |Run(path, reports, modified, added, t).value.violations| > 0
  {
    var agg := Aggregated(reports[path].classes, TouchedFileNames(modified, added));
    var root := reports[path].root.value;
    EvaluateViolationOrder(root, agg, t);
    EvaluateSeverity(root, agg, t);
  }

  lemma ScenarioTouched()
    ensures TouchedFileNames(["app/src/A.kt", "app/src/B.kt"], []) == ["A.kt", "B.kt"]
  {
    var a, b := "app/src/A.kt", "app/src/B.kt";
    assert a == "app/src" + "/" + "A.kt" && b == "app/src" + "/" + "B.kt";
    JoinedPathsTouched("app/src", "A.kt", "B.kt");
  }

  /** Two modified files in one directory are touched under their own names. */
  lemma JoinedPathsTouched(dir: string, a: string, b: string)
    requires '/' !in a && '/' !in b
    ensures TouchedFileNames([dir + "/" + a, dir + "/" + b], []) == [a, b]
  {
    var paths := [dir + "/" + a, dir + "/" + b];
    var r := TouchedFileNames(paths, []);
    assert |r| == 2 && r[0] == Basename(paths[0]) && r[1] == Basename(paths[1]);
    BasenameOfJoin(dir, a);
    BasenameOfJoin(dir, b);
  }

  /** A report with one class record: its file is the only one reported, with that record's counter. */
  lemma SingleClassAggregate(c: ClassRecord)
    ensures Aggregated([c], [c.sourceFileName]) == Aggregate([FileCoverage(c.sourceFileName, c.instructions)], [])
  {
    assert [c][1..] == [];
    assert [c][0].sourceFileName == c.sourceFileName;
    assert Matching([c], c.sourceFileName) == [c];
    assert Sum([c]) == c.instructions;
    var e := FileCoverage(c.sourceFileName, c.instructions);
    assert Put([], e) == [e];
    assert [c.sourceFileName][..0] == [];
    assert Aggregated([c], []) == Aggregate([], []);
  }

  lemma ScenarioFirstFile()
    ensures Aggregated([ClassRecord("A.kt", Counter(0, 5))], ["A.kt"])
         == Aggregate([FileCoverage("A.kt", Counter(0, 5))], [])
  {
    SingleClassAggregate(ClassRecord("A.kt", Counter(0, 5)));
  }

  lemma ScenarioAggregate()
    ensures Aggregated([ClassRecord("A.kt", Counter(0, 5))], ["A.kt", "B.kt"])
         == Aggregate([FileCoverage("A.kt", Counter(0, 5))], ["B.kt"])
  {
    var classes := [ClassRecord("A.kt", Counter(0, 5))];
    var touched := ["A.kt", "B.kt"];
    assert "A.kt"[0] != "B.kt"[0];
    assert !Reported(classes, "B.kt");
    assert touched[..1] == ["A.kt"];
    ScenarioFirstFile();
  }

  /**
    A report whose root counter is 90% covered, with one class for `A.kt`
    fully covered: `A.kt` is listed at 100%, `B.kt` is unreported, and with
    both thresholds at 90 nothing is raised, since 90% is not under 90.
   */
  lemma ExactThresholdScenario()
    ensures var reports := map["report.xml" := ParsedReport(Some(Counter(10, 90)), [ClassRecord("A.kt", Counter(0, 5))])];
            var r := Run("report.xml", reports, ["app/src/A.kt", "app/src/B.kt"], [], Defaults);
      && r.Ok?
      && r.value.rows == [FileCoverage("A.kt", Counter(0, 5))]
      && r.value.unreported == ["B.kt"]
      && r.value.violations == []
  {
    ScenarioRun();
    ScenarioEvaluate();
  }

  lemma ScenarioRun()
    ensures Run("report.xml", map["report.xml" := ParsedReport(Some(Counter(10, 90)), [ClassRecord("A.kt", Counter(0, 5))])],
                ["app/src/A.kt", "app/src/B.kt"], [], Defaults)
         == Ok(Evaluate(Counter(10, 90), Aggregate([FileCoverage("A.kt", Counter(0, 5))], ["B.kt"]), Defaults))
  {
    ScenarioTouched();
    ScenarioAggregate();
  }

  lemma ScenarioEvaluate()
    ensures Evaluate(Counter(10, 90), Aggregate([FileCoverage("A.kt", Counter(0, 5))], ["B.kt"]), Defaults)
         == Outcome(Counter(10, 90), [FileCoverage("A.kt", Counter(0, 5))], ["B.kt"], [])
  {
    var a := FileCoverage("A.kt", Counter(0, 5));
    SortSingle(a, NameOf);
    SortSingle("B.kt", Identity);
    assert !Below(a.instructions, 90);
    SingleRowViolations(a, 90, Fail);
    assert !Below(Counter(10, 90), 90);
  }

  /**
    A touched file at 50% under a 90% file threshold with the fail flag set:
    it is still listed in the table, one `fail` is raised for it, and the run
    fails the build.
   */
  lemma UnderThresholdScenario()
    ensures var reports := map["report.xml" := ParsedReport(Some(Counter(10, 90)), [ClassRecord("C.kt", Counter(5, 5))])];
            var r := Run("report.xml", reports, ["C.kt"], [], Defaults);
      && r.Ok?
      && r.value.rows == [FileCoverage("C.kt", Counter(5, 5))]
      && r.value.violations == [Violation(FileScope("C.kt"), 90, Fail)]
      && Failed(r.value)
  {
    UnderThresholdRun();
    UnderThresholdEvaluate();
  }

  lemma UnderThresholdRun()
    ensures Run("report.xml", map["report.xml" := ParsedReport(Some(Counter(10, 90)), [ClassRecord("C.kt", Counter(5, 5))])],
                ["C.kt"], [], Defaults)
         == Ok(Evaluate(Counter(10, 90), Aggregate([FileCoverage("C.kt", Counter(5, 5))], []), Defaults))
  {
    UnderThresholdTouched();
    SingleClassAggregate(ClassRecord("C.kt", Counter(5, 5)));
  }

  lemma UnderThresholdTouched()
    ensures TouchedFileNames(["C.kt"], []) == ["C.kt"]
  {
    var paths := ["C.kt"];
    var r := TouchedFileNames(paths, []);
    assert |r| == 1 && r[0] == Basename(paths[0]);
    BasenameOfPlainName(paths[0]);
  }

  lemma UnderThresholdEvaluate()
    ensures var o := Evaluate(Counter(10, 90), Aggregate([FileCoverage("C.kt", Counter(5, 5))], []), Defaults);
      && o == Outcome(Counter(10, 90), [FileCoverage("C.kt", Counter(5, 5))], [], [Violation(FileScope("C.kt"), 90, Fail)])
      && Failed(o)
  {
    var c := FileCoverage("C.kt", Counter(5, 5));
    SortSingle(c, NameOf);
    assert Below(c.instructions, 90);
    SingleRowViolations(c, 90, Fail);
    assert !Below(Counter(10, 90), 90);
    var o := Evaluate(Counter(10, 90), Aggregate([c], []), Defaults);
    assert o.violations[0].severity == Fail;
  }

  lemma SortSingle<T>(x: T, key: T -> string)
    ensures Sort([x], key) == [x]
  {
    assert [x][1..] == [];
  }

  lemma SingleRowViolations(f: FileCoverage, threshold: int, severity: Severity)
    ensures FileViolations([f], threshold, severity)
         == if Below(f.instructions, threshold) then [Violation(FileScope(f.name), threshold, severity)] else []
  {
    assert [f][1..] == [];
  }

  /**
    A report with no instructions at all: 0.0 / 0 is NaN in Ruby, NaN
    is never under a threshold, so the run succeeds with no project violation.
   */
  lemma EmptyReportRaisesNothingForProject(t: Thresholds)
    ensures var reports := map["report.xml" := ParsedReport(Some(Counter(0, 0)), [])];
            var r := Run("report.xml", reports, [], [], t);
      && r.Ok?
      && Violation(ProjectScope, t.totalProject, SeverityOf(t.failIfUnderThreshold)) !in r.value.violations
  {
    var agg := Aggregated([], []);
    EvaluateViolations(Counter(0, 0), agg, t);
  }
}
