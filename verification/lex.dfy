/**
  The order in which file names are listed. Ruby compares strings byte by byte
  and puts a proper prefix first; on UTF-8 text that is the same as comparing
  code points one by one, which is what `LexLeq` does on `char`s.
 */
module Lex {

  /** `a` comes no later than `b` in lexicographic order. */
  predicate LexLeq(a: string, b: string)
    decreases |a|
  {
    if |a| == 0 then true
    else if |b| == 0 then false
    else if a[0] < b[0] then true
    else if b[0] < a[0] then false
    else LexLeq(a[1..], b[1..])
  }

  /** A prefix comes before every longer string it starts, and never after one. */
  lemma {:induction false} LexLeqPrefix(a: string, b: string)
    ensures a <= b ==> LexLeq(a, b)
    ensures b < a ==> !LexLeq(a, b)
    decreases |a|
  {
    if |a| > 0 && |b| > 0 {
      LexLeqPrefix(a[1..], b[1..]);
    }
  }

  lemma {:induction false} LexLeqReflexive(a: string)
    ensures LexLeq(a, a)
    decreases |a|
  {
    if |a| > 0 {
      LexLeqReflexive(a[1..]);
    }
  }

  lemma {:induction false} LexLeqTotal(a: string, b: string)
    ensures LexLeq(a, b) || LexLeq(b, a)
    decreases |a|
  {
    if |a| > 0 && |b| > 0 && a[0] == b[0] {
      LexLeqTotal(a[1..], b[1..]);
    }
  }

  lemma {:induction false} LexLeqAntisymmetric(a: string, b: string)
    requires LexLeq(a, b) && LexLeq(b, a)
    ensures a == b
    decreases |a|
  {
    if |a| > 0 {
      LexLeqAntisymmetric(a[1..], b[1..]);
      assert a == [a[0]] + a[1..];
      assert b == [b[0]] + b[1..];
    }
  }

  lemma {:induction false} LexLeqTransitive(a: string, b: string, c: string)
    requires LexLeq(a, b) && LexLeq(b, c)
    ensures LexLeq(a, c)
    decreases |a|
  {
    if |a| > 0 && |b| > 0 && |c| > 0 && a[0] == b[0] && b[0] == c[0] {
      LexLeqTransitive(a[1..], b[1..], c[1..]);
    }
  }
}
