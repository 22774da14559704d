/** The label frequency counters kept under the `/metrics` key. */
module Metrics {
  import opened Text

  datatype LabelMetric = LabelMetric(name: string, total: nat)

  type Counters = map<string, LabelMetric>

  function Total(m: Counters, lbl: string): nat {
    if lbl in m then m[lbl].total else 0
  }

  /** Entries carry their own label and are never stored with a zero count. */
  ghost predicate Tidy(m: Counters) {
    forall lbl :: lbl in m ==> m[lbl].name == lbl && m[lbl].total > 0
  }

  function Increment(m: Counters, lbl: string): Counters {
    m[lbl := LabelMetric(lbl, Total(m, lbl) + 1)]
  }

  function Decrement(m: Counters, lbl: string): Counters {
    if Total(m, lbl) > 1 then m[lbl := LabelMetric(lbl, Total(m, lbl) - 1)] else m - {lbl}
  }

  function IncrementAll(m: Counters, labels: seq<string>): Counters {
    if labels == [] then m else Increment(IncrementAll(m, labels[..|labels| - 1]), labels[|labels| - 1])
  }

  function DecrementAll(m: Counters, labels: seq<string>): Counters {
    if labels == [] then m else Decrement(DecrementAll(m, labels[..|labels| - 1]), labels[|labels| - 1])
  }

  lemma LastOccurrence(labels: seq<string>)
    requires labels != []
    ensures multiset(labels) == multiset(labels[..|labels| - 1]) + multiset{labels[|labels| - 1]}
  {
    assert labels == labels[..|labels| - 1] + [labels[|labels| - 1]];
  }

  /** Counting up adds exactly the number of occurrences, label by label. */
  lemma {:induction false} IncrementAllTotal(m: Counters, labels: seq<string>)
    ensures forall lbl :: Total(IncrementAll(m, labels), lbl) == Total(m, lbl) + multiset(labels)[lbl]
    ensures Tidy(m) ==> Tidy(IncrementAll(m, labels))
    decreases |labels|
  {
    if labels != [] {
      LastOccurrence(labels);
      IncrementAllTotal(m, labels[..|labels| - 1]);
    }
  }

  /** Counting down removes at most the number of occurrences and stops at zero. */
  lemma {:induction false} DecrementAllTotal(m: Counters, labels: seq<string>)
    ensures forall lbl :: Total(DecrementAll(m, labels), lbl)
                          == if Total(m, lbl) >= multiset(labels)[lbl] then Total(m, lbl) - multiset(labels)[lbl] else 0
    ensures Tidy(m) ==> Tidy(DecrementAll(m, labels))
    decreases |labels|
  {
    if labels != [] {
      LastOccurrence(labels);
      DecrementAllTotal(m, labels[..|labels| - 1]);
    }
  }

  /** Tidy counters are determined by their totals. */
  lemma TotalsDetermine(m1: Counters, m2: Counters)
    requires Tidy(m1) && Tidy(m2)
    requires forall lbl :: Total(m1, lbl) == Total(m2, lbl)
    ensures m1 == m2
  {
    assert forall lbl :: lbl in m1 <==> Total(m1, lbl) > 0;
    assert forall lbl :: lbl in m2 <==> Total(m2, lbl) > 0;
    assert m1.Keys == m2.Keys;
    forall lbl | lbl in m1 ensures m1[lbl] == m2[lbl] {
      assert Total(m1, lbl) == Total(m2, lbl);
    }
  }

  /** Counting a record's labels up and then down again restores the counters. */
  lemma IncrementDecrement(m: Counters, labels: seq<string>)
    requires Tidy(m)
    ensures DecrementAll(IncrementAll(m, labels), labels) == m
  {
    IncrementAllTotal(m, labels);
    DecrementAllTotal(IncrementAll(m, labels), labels);
    TotalsDetermine(DecrementAll(IncrementAll(m, labels), labels), m);
  }

  /** The in-memory counters of one operation. */
  class Counting {
    var data: Counters

    constructor (initial: Counters)
      ensures data == initial
    {
      data := initial;
    }

    method Up(lbl: string)
      modifies this
      ensures data == Increment(old(data), lbl)
    {
      if lbl !in data {
        data := data[lbl := LabelMetric(lbl, 0)];
      }
      data := data[lbl := LabelMetric(lbl, data[lbl].total + 1)];
    }

    method Down(lbl: string)
      modifies this
      ensures data == Decrement(old(data), lbl)
    {
      if lbl !in data {
        return;
      }
      var current := data[lbl].total;
      if current > 0 {
        data := data[lbl := LabelMetric(lbl, current - 1)];
      }
      if data[lbl].total == 0 {
        data := data - {lbl};
      }
    }
  }
}
