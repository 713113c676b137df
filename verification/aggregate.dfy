/**
  The per-file loop of the plugin: every touched name with at least one class
  record in the report gets the summed instruction counter of those records;
  every other touched name goes on the list of unreported files.
 */
module Aggregator {
  import opened Jacoco
  import opened Sorting

  /** One entry of the name-to-coverage hash. */
  datatype FileCoverage = FileCoverage(name: string, instructions: Counter)

  /**
    The result of the loop: the hash as its entries in insertion order (a Ruby
    Hash keeps insertion order), and the unreported names in touched order.
   */
  datatype Aggregate = Aggregate(files: seq<FileCoverage>, unreported: seq<string>)

  function NameOf(f: FileCoverage): string
  {
    f.name
  }

  /** The names held by a sequence of strings, as a set. */
  ghost function NameSet(s: seq<string>): set<string>
  {
    set n | n in s
  }

  /** Position of the entry named `name`, or -1 when there is none. */
  function IndexOf(files: seq<FileCoverage>, name: string): (i: int)
    ensures -1 <= i < |files|
    ensures i == -1 <==> name !in Keys(files, NameOf)
    ensures i >= 0 ==> files[i].name == name
    decreases |files|
  {
    if |files| == 0 then -1
    else
      var last := |files| - 1;
      if files[last].name == name then last
      else
        var i := IndexOf(files[..last], name);
        assert forall k :: 0 <= k < last ==> files[..last][k] == files[k];
        i
  }

  /**
    Hash assignment `hash[e.name] = e`: an existing entry of that name is
    replaced where it stands, otherwise the entry is appended.
   */
  function Put(files: seq<FileCoverage>, e: FileCoverage): (r: seq<FileCoverage>)
    ensures Keys(r, NameOf) == Keys(files, NameOf) + {e.name}
    ensures e in r
    ensures forall f :: f in r ==> f == e || f in files
    ensures e.name !in Keys(files, NameOf) ==> r == files + [e]
    ensures e.name in Keys(files, NameOf) ==> |r| == |files|
    ensures DistinctKeys(files, NameOf) ==> DistinctKeys(r, NameOf)
    ensures DistinctKeys(files, NameOf) ==>
              forall k :: 0 <= k < |files| ==> r[k] == (if files[k].name == e.name then e else files[k])
  {
    var i := IndexOf(files, e.name);
    if i < 0 then
      var r := files + [e];
      assert forall k :: 0 <= k < |files| ==> r[k] == files[k];
      assert r[|files|] == e;
      r
    else
      var r := files[i := e];
      assert forall k :: 0 <= k < |files| && k != i ==> r[k] == files[k];
      assert r[i] == e;
      assert forall k :: 0 <= k < |files| ==> NameOf(r[k]) == NameOf(files[k]);
      assert Keys(r, NameOf) == Keys(files, NameOf);
      r
  }

  /** The touched names that no class record declares, in touched order, duplicates kept. */
  function Unmatched(classes: seq<ClassRecord>, touched: seq<string>): (r: seq<string>)
    ensures forall n :: n in r <==> n in touched && !Reported(classes, n)
    ensures |r| <= |touched|
    decreases |touched|
  {
    if |touched| == 0 then []
    else
      var rest := Unmatched(classes, touched[1..]);
      assert touched == [touched[0]] + touched[1..];
      if Reported(classes, touched[0]) then rest else [touched[0]] + rest
  }

  lemma {:induction false} UnmatchedSnoc(classes: seq<ClassRecord>, touched: seq<string>, n: string)
    ensures Unmatched(classes, touched + [n])
      == Unmatched(classes, touched) + (if Reported(classes, n) then [] else [n])
    decreases |touched|
  {
    var t := touched + [n];
    if |touched| == 0 {
      assert t == [n];
      assert t[1..] == [];
    } else {
      assert t[0] == touched[0];
      assert t[1..] == touched[1..] + [n];
      UnmatchedSnoc(classes, touched[1..], n);
    }
  }

  /**
    The loop over the touched names, one name at a time in touched order.
    The hash holds each reported name once with the sum over all of its class
    records; the unreported list keeps every other touched name in order.
   */
  function Aggregated(classes: seq<ClassRecord>, touched: seq<string>): (r: Aggregate)
    ensures DistinctKeys(r.files, NameOf)
    ensures forall f :: f in r.files ==> f.instructions == FileTotal(classes, f.name)
    ensures forall n :: n in Keys(r.files, NameOf) <==> n in touched && Reported(classes, n)
    ensures r.unreported == Unmatched(classes, touched)
    decreases |touched|
  {
    if |touched| == 0 then
      Aggregate([], [])
    else
      var init := touched[..|touched| - 1];
      var name := touched[|touched| - 1];
      assert touched == init + [name];
      var prev := Aggregated(classes, init);
      UnmatchedSnoc(classes, init, name);
      if Reported(classes, name) then
        Aggregate(Put(prev.files, FileCoverage(name, FileTotal(classes, name))), prev.unreported)
      else
        Aggregate(prev.files, prev.unreported + [name])
  }

  /**
    Every touched name lands in exactly one place: as a key of the hash or on
    the unreported list.
   */
  lemma AggregatePartition(classes: seq<ClassRecord>, touched: seq<string>)
    ensures Keys(Aggregated(classes, touched).files, NameOf) + NameSet(Aggregated(classes, touched).unreported)
      == NameSet(touched)
    ensures Keys(Aggregated(classes, touched).files, NameOf) !! NameSet(Aggregated(classes, touched).unreported)
  {
  }
}
