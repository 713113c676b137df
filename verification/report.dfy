/**
  The parts of a Jacoco/Kover XML report that the plugin reads: the root
  INSTRUCTION counter and, for every `class` element, its source file name and
  its INSTRUCTION counter.
 */
module Jacoco {

  /** An instruction counter: how many instructions were missed and covered. */
  datatype Counter = Counter(missed: nat, covered: nat)

  /** One class-level INSTRUCTION counter, with the `sourcefilename` of its class. */
  datatype ClassRecord = ClassRecord(sourceFileName: string, instructions: Counter)

  /**
    A parsed report. `root` is `None` when the report has no root INSTRUCTION
    counter (or the counter lacks its attributes).
   */
  datatype ParsedReport = ParsedReport(root: Option<Counter>, classes: seq<ClassRecord>)

  datatype Option<T> = None | Some(value: T)

  function Total(c: Counter): nat
  {
    c.missed + c.covered
  }

  function Add(a: Counter, b: Counter): Counter
  {
    Counter(a.missed + b.missed, a.covered + b.covered)
  }

  /** The coverage percentage `covered / total * 100`, defined when there is at least one instruction. */
  function Percent(c: Counter): (r: real)
    requires Total(c) > 0
    ensures 0.0 <= r <= 100.0
    ensures r * (Total(c) as real) == 100.0 * (c.covered as real)
  {
    var t := Total(c) as real;
    var p := (c.covered as real / t) * 100.0;
    assert c.covered as real / t <= 1.0 by {
      assert c.covered as real <= t;
    }
    p
  }

  /** Multiplying both sides by a positive number keeps a strict comparison. */
  lemma ScaleStrict(x: real, y: real, t: real)
    requires t > 0.0
    ensures x < y <==> x * t < y * t
  {
    if x < y {
      assert (y - x) * t > 0.0;
    }
    if x * t < y * t {
      assert (y - x) * t > 0.0;
    }
  }

  /** The integer comparison `covered * 100 < t * total` is the real comparison `percent < t`. */
  lemma ExactComparison(c: Counter, threshold: int)
    requires Total(c) > 0
    ensures c.covered * 100 < threshold * Total(c) <==> Percent(c) < threshold as real
  {
    var t := Total(c) as real;
    var p := Percent(c);
    var lhs := c.covered * 100;
    var rhs := threshold * Total(c);
    assert lhs as real == 100.0 * (c.covered as real);
    assert rhs as real == (threshold as real) * t;
    assert p * t == 100.0 * (c.covered as real);
    ScaleStrict(p, threshold as real, t);
  }

  /**
    Whether coverage is strictly under `threshold` percent, compared exactly.
    A counter with no instructions gives 0.0/0 = NaN in Ruby, and NaN
    compares false, so it is never under any threshold.
   */
  function Below(c: Counter, threshold: int): (b: bool)
    ensures Total(c) == 0 ==> !b
    ensures Total(c) > 0 ==> (b <==> Percent(c) < threshold as real)
  {
    if Total(c) == 0 then false
    else
      ExactComparison(c, threshold);
      c.covered * 100 < threshold * Total(c)
  }

  /** Strict threshold: a counter exactly at the threshold is not under it. */
  lemma AtThresholdIsNotBelow(c: Counter, threshold: int)
    requires Total(c) > 0 && Percent(c) == threshold as real
    ensures !Below(c, threshold)
  {
  }

  /** Some class in the report declares `name` as its source file. */
  predicate Reported(classes: seq<ClassRecord>, name: string)
  {
    exists i :: 0 <= i < |classes| && classes[i].sourceFileName == name
  }

  /** The class records whose `sourcefilename` equals `name` exactly, in report order. */
  function Matching(classes: seq<ClassRecord>, name: string): (r: seq<ClassRecord>)
    ensures |r| > 0 <==> Reported(classes, name)
    decreases |classes|
  {
    if |classes| == 0 then []
    else
      var rest := Matching(classes[1..], name);
      assert Reported(classes[1..], name) ==> Reported(classes, name) by {
        if Reported(classes[1..], name) {
          var i :| 0 <= i < |classes[1..]| && classes[1..][i].sourceFileName == name;
          assert classes[i + 1] == classes[1..][i];
        }
      }
      assert Reported(classes, name) && classes[0].sourceFileName != name ==> Reported(classes[1..], name) by {
        if Reported(classes, name) && classes[0].sourceFileName != name {
          var i :| 0 <= i < |classes| && classes[i].sourceFileName == name;
          assert classes[1..][i - 1] == classes[i];
        }
      }
      if classes[0].sourceFileName == name then [classes[0]] + rest else rest
  }

  /**
    Matching keeps exactly the records of file `name`, each as often as the
    report holds it: the comparison is exact string equality.
   */
  lemma {:induction false} MatchingIsExactFilter(classes: seq<ClassRecord>, name: string)
    ensures forall c: ClassRecord :: c in Matching(classes, name) <==> c in classes && c.sourceFileName == name
    ensures forall c: ClassRecord :: c.sourceFileName == name ==>
              multiset(Matching(classes, name))[c] == multiset(classes)[c]
    decreases |classes|
  {
    if |classes| > 0 {
      MatchingIsExactFilter(classes[1..], name);
      assert classes == [classes[0]] + classes[1..];
      assert multiset(classes) == multiset{classes[0]} + multiset(classes[1..]);
    }
  }

  /** Sum of the instruction counters of `records`. */
  function Sum(records: seq<ClassRecord>): Counter
    decreases |records|
  {
    if |records| == 0 then Counter(0, 0)
    else Add(records[0].instructions, Sum(records[1..]))
  }

  lemma {:induction false} SumAppend(a: seq<ClassRecord>, b: seq<ClassRecord>)
    ensures Sum(a + b) == Add(Sum(a), Sum(b))
    decreases |a|
  {
    if |a| > 0 {
      var ab := a + b;
      assert ab[0] == a[0];
      assert ab[1..] == a[1..] + b;
      SumAppend(a[1..], b);
    } else {
      assert a + b == b;
    }
  }

  lemma {:induction false} MatchingAppend(a: seq<ClassRecord>, b: seq<ClassRecord>, name: string)
    ensures Matching(a + b, name) == Matching(a, name) + Matching(b, name)
    decreases |a|
  {
    if |a| > 0 {
      var ab := a + b;
      assert ab[0] == a[0];
      assert ab[1..] == a[1..] + b;
      MatchingAppend(a[1..], b, name);
    } else {
      assert a + b == b;
    }
  }

  /** The instruction counter of file `name`: the sum over every class record of that file. */
  function FileTotal(classes: seq<ClassRecord>, name: string): Counter
  {
    Sum(Matching(classes, name))
  }

  /**
    Every matching class record contributes, not only the first: appending a
    record of file `name` adds its counter to the file's total, and appending a
    record of another file leaves the total unchanged.
   */
  lemma FileTotalSnoc(classes: seq<ClassRecord>, c: ClassRecord, name: string)
    ensures FileTotal(classes + [c], name)
      == if c.sourceFileName == name then Add(FileTotal(classes, name), c.instructions)
         else FileTotal(classes, name)
  {
    var m := Matching(classes, name);
    MatchingAppend(classes, [c], name);
    assert [c][1..] == [];
    if c.sourceFileName == name {
      assert Matching([c], name) == [c];
      SumAppend(m, [c]);
      assert Sum([c]) == c.instructions;
    } else {
      assert Matching([c], name) == [];
      assert m + [] == m;
    }
  }

  /** A file's total is the sum of the totals of the two halves of the report. */
  lemma FileTotalAppend(a: seq<ClassRecord>, b: seq<ClassRecord>, name: string)
    ensures FileTotal(a + b, name) == Add(FileTotal(a, name), FileTotal(b, name))
  {
    MatchingAppend(a, b, name);
    SumAppend(Matching(a, name), Matching(b, name));
  }
}
