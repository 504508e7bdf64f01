/**
 Counting pairs of a list: the nested loop over `combinations(list, 2)`, and
 the closed form for the number of pairs that fall into different classes.
 */
module PairCounts {

  /** How many later elements are related to `x`. */
  ghost function RowCount<T>(x: T, rest: seq<T>, related: (T, T) -> bool): nat {
    if rest == [] then 0 else (if related(x, rest[0]) then 1 else 0) + RowCount(x, rest[1..], related)
  }

  /** How many pairs, earlier element first, are related. */
  ghost function PairCount<T>(xs: seq<T>, related: (T, T) -> bool): nat {
    if xs == [] then 0 else RowCount(xs[0], xs[1..], related) + PairCount(xs[1..], related)
  }

  ghost function CountWhere<T>(xs: seq<T>, holds: T -> bool): nat {
    if xs == [] then 0 else CountWhere(xs[..|xs| - 1], holds) + if holds(xs[|xs| - 1]) then 1 else 0
  }

  lemma {:induction false} CountMonotone<T(!new)>(xs: seq<T>, p: T -> bool, q: T -> bool)
    requires forall x | p(x) :: q(x)
    ensures CountWhere(xs, p) <= CountWhere(xs, q) <= |xs|
  {
    if xs != [] {
      CountMonotone(xs[..|xs| - 1], p, q);
    }
  }

  lemma {:induction false} CountPositive<T(!new)>(xs: seq<T>, p: T -> bool)
    ensures CountWhere(xs, p) > 0 <==> exists x | x in xs :: p(x)
  {
    if xs != [] {
      var rest, last := xs[..|xs| - 1], xs[|xs| - 1];
      assert xs == rest + [last];
      CountPositive(rest, p);
      assert last in xs;
    }
  }

  /** Pair counts of two relations that always exclude each other add up. */
  lemma {:induction false} PairCountSplits<T(!new)>(xs: seq<T>, p: (T, T) -> bool, q: (T, T) -> bool, either: (T, T) -> bool)
    requires forall x, y :: !(p(x, y) && q(x, y)) && (either(x, y) <==> p(x, y) || q(x, y))
    ensures PairCount(xs, p) + PairCount(xs, q) == PairCount(xs, either)
  {
    if xs != [] {
      RowCountSplits(xs[0], xs[1..], p, q, either);
      PairCountSplits(xs[1..], p, q, either);
    }
  }

  lemma {:induction false} RowCountSplits<T(!new)>(x: T, rest: seq<T>, p: (T, T) -> bool, q: (T, T) -> bool, either: (T, T) -> bool)
    requires forall x, y :: !(p(x, y) && q(x, y)) && (either(x, y) <==> p(x, y) || q(x, y))
    ensures RowCount(x, rest, p) + RowCount(x, rest, q) == RowCount(x, rest, either)
  {
    if rest != [] {
      RowCountSplits(x, rest[1..], p, q, either);
    }
  }

  lemma {:induction false} RowCountPositive<T>(x: T, rest: seq<T>, related: (T, T) -> bool)
    ensures RowCount(x, rest, related) > 0 <==> exists j | 0 <= j < |rest| :: related(x, rest[j])
  {
    if rest != [] {
      RowCountPositive(x, rest[1..], related);
      assert forall j | 1 <= j < |rest| :: rest[j] == rest[1..][j - 1];
    }
  }

  /** A pair count is positive exactly when some pair is related. */
  lemma {:induction false} PairCountPositive<T>(xs: seq<T>, related: (T, T) -> bool)
    ensures PairCount(xs, related) > 0 <==> exists i, j | 0 <= i < j < |xs| :: related(xs[i], xs[j])
  {
    if xs != [] {
      var rest := xs[1..];
      RowCountPositive(xs[0], rest, related);
      PairCountPositive(rest, related);
      if j :| 0 <= j < |rest| && related(xs[0], rest[j]) {
        assert related(xs[0], xs[j + 1]);
      }
      if i, j :| 0 <= i < j < |rest| && related(rest[i], rest[j]) {
        assert related(xs[i + 1], xs[j + 1]);
      }
      if i, j :| 0 <= i < j < |xs| && related(xs[i], xs[j]) {
        assert xs[j] == rest[j - 1];
        assert i > 0 ==> related(rest[i - 1], rest[j - 1]);
      }
    }
  }

  // ------------------------------------------------- pairs across classes

  predicate Differs(a: string, b: string) {
    a != b
  }

  function Choose2(n: nat): nat {
    n * (n - 1) / 2
  }

  lemma Choose2Next(n: nat)
    ensures Choose2(n + 1) == Choose2(n) + n
  {}

  /** The pairs inside each of the classes. */
  ghost function PairsInside(classes: set<string>, counts: multiset<string>): nat {
    if classes == {} then 0
    else
      var c :| c in classes;
      Choose2(counts[c]) + PairsInside(classes - {c}, counts)
  }

  /** Any class may be taken out of the sum. */
  lemma {:induction false} TakeClass(classes: set<string>, counts: multiset<string>, c: string)
    requires c in classes
    ensures PairsInside(classes, counts) == Choose2(counts[c]) + PairsInside(classes - {c}, counts)
    decreases |classes|
  {
    hide Choose2;
    var first :| first in classes && PairsInside(classes, counts) == Choose2(counts[first]) + PairsInside(classes - {first}, counts);
    if first != c {
      TakeClass(classes - {first}, counts, c);
      TakeClass(classes - {c}, counts, first);
      assert classes - {first} - {c} == classes - {c} - {first};
    }
  }

  lemma {:induction false} SameCountsSameSum(classes: set<string>, counts: multiset<string>, others: multiset<string>)
    requires forall c | c in classes :: counts[c] == others[c]
    ensures PairsInside(classes, counts) == PairsInside(classes, others)
    decreases |classes|
  {
    hide Choose2;
    if classes != {} {
      var c :| c in classes;
      TakeClass(classes, counts, c);
      TakeClass(classes, others, c);
      SameCountsSameSum(classes - {c}, counts, others);
    }
  }

  ghost function Classes(counts: multiset<string>): set<string> {
    set c | c in counts
  }

  lemma ClassesOfMore(counts: multiset<string>, c: string)
    ensures Classes(counts + multiset{c}) == Classes(counts) + {c}
    ensures c !in Classes(counts) ==> counts[c] == 0
    ensures (counts + multiset{c})[c] == counts[c] + 1
    ensures forall d | d != c :: (counts + multiset{c})[d] == counts[d]
  {}

  /** One more member of a class adds as many inside pairs as the class had members. */
  lemma OneMoreMember(counts: multiset<string>, c: string)
    ensures PairsInside(Classes(counts + multiset{c}), counts + multiset{c}) == PairsInside(Classes(counts), counts) + counts[c]
  {
    assert Choose2(0) == 0;
    hide Choose2, PairsInside, Classes;
    ClassesOfMore(counts, c);
    Choose2Next(counts[c]);
    var classes, more := Classes(counts), counts + multiset{c};
    var others := classes - {c};
    assert classes + {c} - {c} == others;
    TakeClass(classes + {c}, more, c);
    SameCountsSameSum(others, counts, more);
    if c in classes {
      TakeClass(classes, counts, c);
    } else {
      assert classes == others;
    }
  }

  lemma {:induction false} RowOfClass(c: string, rest: seq<string>)
    ensures RowCount(c, rest, Differs) + multiset(rest)[c] == |rest|
  {
    if rest != [] {
      RowOfClass(c, rest[1..]);
      assert rest == [rest[0]] + rest[1..];
    }
  }

  /** The pairs in different classes are all pairs less those inside a class. */
  lemma {:induction false} PairDistinctionsFormula(labels: seq<string>)
    ensures PairCount(labels, Differs) + PairsInside(Classes(multiset(labels)), multiset(labels)) == Choose2(|labels|)
  {
    if labels != [] {
      var c, rest := labels[0], labels[1..];
      assert labels == [c] + rest;
      assert multiset(labels) == multiset(rest) + multiset{c};
      PairDistinctionsFormula(rest);
      RowOfClass(c, rest);
      hide Choose2, PairsInside;
      OneMoreMember(multiset(rest), c);
      Choose2Next(|rest|);
    }
  }

  /** So the count does not depend on the order in which the candidates are listed. */
  lemma PairDistinctionsIgnoreOrder(labels: seq<string>, others: seq<string>)
    requires multiset(labels) == multiset(others)
    ensures PairCount(labels, Differs) == PairCount(others, Differs)
  {
    PairDistinctionsFormula(labels);
    PairDistinctionsFormula(others);
    assert |labels| == |multiset(labels)| == |others|;
  }

  /** It is positive exactly when two classes occur. */
  lemma PairDistinctionsPositive(labels: seq<string>)
    ensures PairCount(labels, Differs) > 0 <==> exists a, b | a in labels && b in labels :: a != b
  {
    PairCountPositive(labels, Differs);
    if i, j :| 0 <= i < j < |labels| && Differs(labels[i], labels[j]) {
      assert labels[i] in labels && labels[j] in labels;
    }
    if a, b :| a in labels && b in labels && a != b {
      var i :| 0 <= i < |labels| && labels[i] == a;
      var j :| 0 <= j < |labels| && labels[j] == b;
      assert Differs(labels[if i < j then i else j], labels[if i < j then j else i]);
    }
  }

  /** The nested loop over all pairs, earlier element first. */
  method CountDistinctions(labels: seq<string>) returns (total: nat)
    ensures total == PairCount(labels, Differs)
  {
    total := 0;
    for i := 0 to |labels|
      invariant total + PairCount(labels[i..], Differs) == PairCount(labels, Differs)
    {
      ghost var before := total;
      for j := i + 1 to |labels|
        invariant total + RowCount(labels[i], labels[j..], Differs) == before + RowCount(labels[i], labels[i + 1..], Differs)
      {
        if labels[i] != labels[j] {
          total := total + 1;
        }
        assert labels[j..][1..] == labels[j + 1..];
      }
      assert labels[i..][1..] == labels[i + 1..];
    }
  }
}
