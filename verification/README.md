# danger-shroud coverage gate, modelled in Dafny

`DangerShroud#report` is a Danger plugin that reads a Jacoco (or Kover)
XML coverage report and gates a pull request on it. It reads the project's
root INSTRUCTION counter. It collects the basenames of the files the pull
request modified and added. For each of those names it sums the INSTRUCTION
counters of every `class` element whose `sourcefilename` is that name. Then
it writes a table sorted by file name and a sorted list of touched files the
report does not know. It raises one Danger `fail` (or `warn`) per file
strictly under the modified-file threshold, and finally one for the project
if it is strictly under the total-project threshold.

This project models that pipeline as pure functions over immutable data:

- `lex.dfy` (`Lex`): the string order Ruby's `sort` uses, with the proofs
  that it is a total order.
- `sorting.dfy` (`Sorting`): insertion sort by a string key. It returns a
  sorted permutation, keeps distinct keys distinct, and sorting names gives
  the same list whatever the input order.
- `report.dfy` (`Jacoco`): the parsed report (`Counter`, `ClassRecord`,
  `ParsedReport`), the exact percentage and the strict threshold test
  `Below`, and the per-file sum over all matching class records.
- `touched.dfy` (`Touched`): basenames and the touched-file list.
- `aggregate.dfy` (`Aggregator`): the per-file loop, producing the hash of
  reported files and the list of unreported ones.
- `policy.dfy` (`Policy`): the sorted table, the violations and their
  severity.
- `shroud.dfy` (`Shroud`): the entry point `Run` with its error results,
  the end-to-end properties, and two worked scenarios.

Percentages are never computed in floating point. A file or the project is
under threshold `t` when `covered * 100 < t * (missed + covered)`. The
contract of `Jacoco.Below` shows this is the same as the real number
`covered / total * 100` being under `t`. A counter with no
instructions gives `0.0 / 0 = NaN` in Ruby, and `NaN < t` is false. So in
the model such a counter is never under any threshold.

The report file system is a parameter: a map from existing paths to their
parsed reports. The git file lists are two parameters. Danger's `fail` and
`warn` become a returned sequence of `Violation` records.

Three facts about `report` shape the model:

- `failIfUnderThreshold` (plugin.rb:50, 105 and 124) sets the severity of
  both kinds of violation.
- A root counter with no instructions gives NaN at line 59. The run goes on
  and raises no project violation.
- Nokogiri parses leniently, so the only report error is a missing root
  INSTRUCTION counter (line 56): `.attr("missed").value` is then called on
  `nil`.

## Model

| member | source | states |
|---|---|---|
| Touched.TouchedFileNames | lib/shroud/plugin.rb:62-63 | the touched list is the basenames of the modified paths, then those of the added paths, in input order, duplicates kept |
| Touched.Basename | lib/shroud/plugin.rb:62-63 | `File.basename`: the result is no longer than the path, and each of its characters is the matching character at the end of the path and is not `/` |
| Touched.BasenameIsLastSegment | lib/shroud/plugin.rb:62 | the suffix is the longest one without `/`: it is the whole path or starts right after a `/` |
| Touched.BasenameAfterSlash | lib/shroud/plugin.rb:62 | the basename never reaches back over a `/` in the path |
| Touched.BasenameCoversSlashFreeSuffix | lib/shroud/plugin.rb:62 | the basename takes in every trailing character that is not `/` |
| Touched.BasenameOfJoin | lib/shroud/plugin.rb:63 | the basename of `dir/name` is `name` for any directory |
| Jacoco.Percent | lib/shroud/plugin.rb:59 | with a nonzero total, the percentage lies in [0, 100] and times the total equals 100 times the covered count |
| Jacoco.Below | lib/shroud/plugin.rb:103 | the strict `<` of lines 103 and 122: never holds for a counter with no instructions (NaN compares false); otherwise holds exactly when the real percentage is strictly under the threshold |
| Jacoco.AtThresholdIsNotBelow | lib/shroud/plugin.rb:122 | coverage exactly at the threshold is not a violation |
| Jacoco.Matching | lib/shroud/plugin.rb:72-74 | the matching records are non-empty exactly when some class declares the name |
| Jacoco.MatchingIsExactFilter | lib/shroud/plugin.rb:72 | a record matches exactly when its `sourcefilename` equals the name, and every such record is kept as often as the report holds it |
| Jacoco.FileTotalSnoc | lib/shroud/plugin.rb:75-80 | every matching class record adds its counters to the file's total, not only the first; others add nothing |
| Jacoco.FileTotalAppend | lib/shroud/plugin.rb:77-80 | a file's total over a report is the sum of its totals over the two halves |
| Aggregator.Put | lib/shroud/plugin.rb:81 | hash assignment adds the name to the keys, replaces an existing entry where it stands or appends a new one, and keeps keys unique |
| Aggregator.Unmatched | lib/shroud/plugin.rb:82-84 | a name is unreported exactly when it was touched and no class declares it |
| Aggregator.Aggregated | lib/shroud/plugin.rb:71-85 | the hash keys are exactly the touched names some class declares, each once, with the sum over all of their records; the unreported list is the other touched names in touched order |
| Aggregator.AggregatePartition | lib/shroud/plugin.rb:74-84 | hash keys and unreported names together are the touched names, and they share none |
| Lex.LexLeqPrefix | lib/shroud/plugin.rb:99 | in Ruby's string order a string comes no later than any string it is a prefix of, and after its own proper prefixes |
| Lex.LexLeqTotal | lib/shroud/plugin.rb:99 | any two names are comparable |
| Lex.LexLeqAntisymmetric | lib/shroud/plugin.rb:99 | two names that each come no later than the other are equal |
| Lex.LexLeqTransitive | lib/shroud/plugin.rb:99 | the string order is transitive |
| Sorting.Sort | lib/shroud/plugin.rb:99 | the result is sorted by key and is a permutation of the input |
| Sorting.SortKeepsDistinctKeys | lib/shroud/plugin.rb:99 | sorting hash entries keeps their names distinct |
| Sorting.SortIgnoresInputOrder | lib/shroud/plugin.rb:114 | sorting names by `Identity`, the key the unreported list is sorted by, gives a result that depends only on which names there are and how often, not on their order |
| Policy.SeverityOf | lib/shroud/plugin.rb:105-109 | the choice between `fail` and `warn` here and at lines 124-128: `fail` exactly when the flag is set, `warn` exactly when it is not |
| Policy.FileViolations | lib/shroud/plugin.rb:99-110 | no more violations than table rows, each about a file and carrying the given threshold and severity |
| Policy.FileViolationsExact | lib/shroud/plugin.rb:99-106 | every row strictly under the threshold gets a violation, and every violation names a row strictly under it |
| Policy.FileViolationsPerRow | lib/shroud/plugin.rb:99-106 | on a table with distinct names, a row has a violation exactly when it is strictly under the threshold |
| Policy.UnlistedNameHasNoViolation | lib/shroud/plugin.rb:99-103 | a file that is not in the table never gets a per-file violation |
| Policy.FileViolationsInTableOrder | lib/shroud/plugin.rb:99-111 | walking a sorted table yields violations in ascending name order, one per file when names are distinct |
| Policy.ProjectViolations | lib/shroud/plugin.rb:122-129 | at most one project violation, present exactly when the project counter is strictly under its threshold |
| Policy.Evaluate | lib/shroud/plugin.rb:99-116 | the table is the hash sorted by name, and the unreported list is sorted, both as permutations of their inputs |
| Policy.EvaluateSeverity | lib/shroud/plugin.rb:105-109 | every violation is `fail` when the flag is set and `warn` otherwise; the build fails exactly when the flag is set and a violation was raised |
| Policy.EvaluateViolationOrder | lib/shroud/plugin.rb:99-129 | per-file violations come first in ascending name order, one per file, and the project violation, if any, is last |
| Policy.EvaluateViolations | lib/shroud/plugin.rb:103-124 | a hash entry has a violation exactly when it is under the file threshold; the project has one exactly when it is under the project threshold |
| Policy.EvaluateRaisesNothingElse | lib/shroud/plugin.rb:99-129 | every violation is either a file violation for a hash entry strictly under the modified-file threshold, carrying that threshold, or the project violation, carrying the total-project threshold and raised only when the project is strictly under it |
| Shroud.Run | lib/shroud/plugin.rb:50-59 | an empty path, a missing file and a missing root counter are the only errors, checked in that order; otherwise the project counter is the root counter |
| Shroud.RunRows | lib/shroud/plugin.rb:71-100 | table rows are exactly the touched files the report knows, once each, in ascending name order, with the sum over all their class records |
| Shroud.RunPartition | lib/shroud/plugin.rb:113-116 | the unreported list is the sorted unknown touched names with duplicates kept; with the rows it covers the touched names without overlap |
| Shroud.RunFileViolations | lib/shroud/plugin.rb:71-111 | a touched name has a file violation exactly when the report knows it and its summed counter is strictly under the file threshold |
| Shroud.RunRaisesNothingElse | lib/shroud/plugin.rb:99-129 | every file violation names a touched file the report knows, whose summed counter is strictly under the modified-file threshold, and carries that threshold; the project violation carries the total-project threshold and appears only when the root counter is strictly under it |
| Shroud.ProjectVerdictIgnoresFiles | lib/shroud/plugin.rb:55-58 | project coverage and the project violation depend only on the root counter, not on classes or touched files |
| Shroud.RunViolationOrderAndSeverity | lib/shroud/plugin.rb:121-129 | the project violation comes after all file violations; one flag sets every severity |
| Shroud.ExactThresholdScenario | lib/shroud/plugin.rb:92-103 | a 90% project and a 100% file against 90/90 raise nothing, and the file missing from the report is listed as unreported |
| Shroud.UnderThresholdScenario | lib/shroud/plugin.rb:104-106 | a 50% file against a 90% threshold with the flag set is still listed, raises one `fail`, and fails the build |
| Shroud.EmptyReportRaisesNothingForProject | lib/shroud/plugin.rb:122 | a root counter with no instructions raises no project violation |

## Left out

- Reading the report (`File.exist?`, `File.read`) and XML parsing with
  Nokogiri are replaced by a map from existing paths to parsed reports.
  Malformed XML has no error of its own, because Nokogiri recovers from it.
- The string-built XPath query of line 72 is replaced by exact name
  equality. The real query breaks on names that contain a quote.
- Attribute values go through Ruby's `to_i`. That maps non-numeric text to 0
  and allows negative values. The model's counters are natural numbers read
  correctly.
- A report with several root INSTRUCTION counters uses the first one in
  Ruby. The model has a single optional root counter.
- A class element with several INSTRUCTION counters is modelled as several
  `ClassRecord`s. One without an INSTRUCTION counter has no record, so it
  does not make its file reported, just as the XPath match finds nothing.
- Jacoco.Below: it compares exactly, while Ruby compares the float
  `covered / total * 100` with the threshold. Float rounding can put an
  exact-threshold file under the threshold: 29 of 100 gives
  28.999999999999996. The model does not reproduce that rounding.
- The hash stores a percentage per file. The model stores the summed
  counter, from which `Jacoco.Percent` gives the percentage.
- `File.basename` also strips trailing slashes. git never lists a path with
  one, so `Touched.Basename` just takes the text after the last `/`.
- The `puts` debugging (lines 87-90), the markdown text, the `'%.2f'`
  formatting and the footer line are output formatting. The model keeps the
  table rows, the unreported names and the project counter they print.
- Violation messages are reduced to their scope, their threshold and their
  severity.
- Danger's `markdown` call happens between the file and project checks.
  Only the relative order of the violations is modelled.
