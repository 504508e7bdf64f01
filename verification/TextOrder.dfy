/**
 Strings in the code-point order that `sorted` uses, the sorted listing of a
 finite set of names, and the decimal rendering of a counter.
 */
module TextOrder {

  /** Lexicographic order by code point, a proper prefix first. */
  predicate Le(a: string, b: string) {
    a == [] || (b != [] && (a[0] < b[0] || (a[0] == b[0] && Le(a[1..], b[1..]))))
  }

  predicate Lt(a: string, b: string) {
    a != b && Le(a, b)
  }

  lemma LeTotal(a: string, b: string)
    ensures Le(a, b) || Le(b, a)
  {}

  lemma LeAntisymmetric(a: string, b: string)
    requires Le(a, b) && Le(b, a)
    ensures a == b
  {}

  lemma LeTransitive(a: string, b: string, c: string)
    requires Le(a, b) && Le(b, c)
    ensures Le(a, c)
  {}

  ghost predicate StrictlySorted(names: seq<string>) {
    forall i, j | 0 <= i < j < |names| :: Lt(names[i], names[j])
  }

  /** Every non-empty finite set of names has exactly one least member. */
  lemma {:induction false} LeastExists(names: set<string>)
    requires names != {}
    ensures exists least | least in names :: forall other | other in names :: Le(least, other)
  {
    hide Le;
    var pick :| pick in names;
    if names == {pick} {
      LeTotal(pick, pick);
      assert forall other | other in names :: Le(pick, other);
    } else {
      var rest := names - {pick};
      LeastExists(rest);
      var least :| least in rest && forall other | other in rest :: Le(least, other);
      LeTotal(pick, pick);
      LeTotal(pick, least);
      var best := if Le(pick, least) then pick else least;
      forall other | other in names ensures Le(best, other) {
        if other != pick && best == pick {
          LeTransitive(pick, least, other);
        }
      }
      assert best in names;
    }
  }

  /** A set has only one sorted listing, so `sorted` does not depend on the order it is fed. */
  lemma {:induction false} SortedUnique(xs: seq<string>, ys: seq<string>)
    requires StrictlySorted(xs) && StrictlySorted(ys)
    requires forall name :: name in xs <==> name in ys
    ensures xs == ys
  {
    if ys != [] {
      assert ys[0] in xs;
    }
    if xs != [] {
      assert xs[0] in ys;
      var i :| 0 <= i < |ys| && ys[i] == xs[0];
      var j :| 0 <= j < |xs| && xs[j] == ys[0];
      if i != 0 {
        assert Lt(ys[0], xs[0]) && Lt(xs[0], ys[0]);
        LeAntisymmetric(xs[0], ys[0]);
      }
      forall name ensures name in xs[1..] <==> name in ys[1..] {
        assert name in xs <==> name == xs[0] || name in xs[1..];
        assert name in ys <==> name == ys[0] || name in ys[1..];
        assert xs[0] !in xs[1..] && ys[0] !in ys[1..];
      }
      SortedUnique(xs[1..], ys[1..]);
    }
  }

  lemma SortedExists(names: set<string>)
    ensures exists listing :: StrictlySorted(listing) && |listing| == |names| && forall name :: name in listing <==> name in names
  {
    if names == {} {
      assert StrictlySorted([]);
    } else {
      LeastExists(names);
      var least :| least in names && forall other | other in names :: Le(least, other);
      var rest := names - {least};
      SortedExists(rest);
      var tail :| StrictlySorted(tail) && |tail| == |rest| && forall name :: name in tail <==> name in rest;
      assert forall i | 0 <= i < |tail| :: tail[i] in tail;
      assert StrictlySorted([least] + tail);
    }
  }

  /** The listing `sorted(names)` of a set of names. */
  ghost function Sorted(names: set<string>): (listing: seq<string>)
    ensures StrictlySorted(listing)
    ensures forall name :: name in listing <==> name in names
    ensures |listing| == |names|
  {
    SortedExists(names);
    var listing :| StrictlySorted(listing) && |listing| == |names| && forall name :: name in listing <==> name in names;
    listing
  }

  method LeastOf(names: set<string>) returns (least: string)
    requires names != {}
    ensures least in names && forall other | other in names :: Le(least, other)
  {
    var rest := names;
    least :| least in rest;
    rest := rest - {least};
    LeTotal(least, least);
    while rest != {}
      invariant rest <= names && least in names
      invariant forall other | other in names - rest :: Le(least, other)
      decreases |rest|
    {
      var next :| next in rest;
      rest := rest - {next};
      LeTotal(next, next);
      LeTotal(least, next);
      if Le(next, least) {
        forall other | other in names - rest ensures Le(next, other) {
          if other != next {
            LeTransitive(next, least, other);
          }
        }
        least := next;
      }
    }
  }

  /** Lists a set of names in order. */
  method SortNames(names: set<string>) returns (listing: seq<string>)
    ensures listing == Sorted(names)
  {
    listing := [];
    var rest := names;
    while rest != {}
      invariant rest <= names
      invariant StrictlySorted(listing)
      invariant forall name :: name in listing <==> name in names - rest
      invariant forall name, other | name in listing && other in rest :: Lt(name, other)
      decreases |rest|
    {
      var least := LeastOf(rest);
      assert forall i | 0 <= i < |listing| :: listing[i] in listing;
      forall name, other | name in listing + [least] && other in rest - {least} ensures Lt(name, other) {
        assert name in listing || name == least;
      }
      listing := listing + [least];
      rest := rest - {least};
    }
    SortedUnique(listing, Sorted(names));
  }

  const DIGITS := "0123456789"

  /** `str(n)` for a non-negative integer. */
  function Decimal(n: nat): (text: string)
    ensures text != []
    ensures forall c | c in text :: c in DIGITS
  {
    if n < 10 then [DIGITS[n]] else Decimal(n / 10) + [DIGITS[n % 10]]
  }

  lemma {:induction false} DecimalInjective(m: nat, n: nat)
    requires Decimal(m) == Decimal(n)
    ensures m == n
  {
    assert |Decimal(m)| == 1 <==> m < 10;
    assert |Decimal(n)| == 1 <==> n < 10;
    if m >= 10 {
      var a, b := Decimal(m / 10), Decimal(n / 10);
      assert Decimal(m)[..|a|] == a && Decimal(n)[..|b|] == b;
      assert Decimal(m)[|a|] == DIGITS[m % 10] && Decimal(n)[|b|] == DIGITS[n % 10];
      DecimalInjective(m / 10, n / 10);
    }
  }

  // --------------------------------------------- what order and digits mean

  /** The texts agree up to here, and then the first ends or has the smaller code point. */
  predicate SplitsBelow(a: string, b: string, k: nat) {
    && k <= |a| && k < |b| && a[..k] == b[..k]
    && (k == |a| || a[k] < b[k])
  }

  /** The order is decided at the first difference, by code point, a proper prefix first. */
  lemma {:induction false} LtExactly(a: string, b: string)
    ensures Lt(a, b) <==> exists k: nat :: SplitsBelow(a, b, k)
  {
    if a != [] && b != [] && a[0] == b[0] {
      var a', b' := a[1..], b[1..];
      LtExactly(a', b');
      assert a == [a[0]] + a' && b == [b[0]] + b';
      if k: nat :| SplitsBelow(a', b', k) {
        assert a[..k + 1] == [a[0]] + a'[..k] && b[..k + 1] == [b[0]] + b'[..k];
        assert SplitsBelow(a, b, k + 1);
      }
      if k: nat :| SplitsBelow(a, b, k) {
        assert k > 0;
        assert a'[..k - 1] == a[..k][1..] && b'[..k - 1] == b[..k][1..];
        assert SplitsBelow(a', b', k - 1);
      }
    } else {
      if Lt(a, b) {
        assert SplitsBelow(a, b, 0);
      }
      if k: nat :| SplitsBelow(a, b, k) && k > 0 {
        assert a[..k][0] == b[..k][0];
      }
    }
  }

  /** The number a text of decimal digits denotes. */
  ghost function NumberOf(text: string): int {
    if text == [] then 0 else 10 * NumberOf(text[..|text| - 1]) + (text[|text| - 1] as int - '0' as int)
  }

  /** The rendering denotes its number, and does not open with a needless zero. */
  lemma {:induction false} DecimalDenotes(n: nat)
    ensures NumberOf(Decimal(n)) == n && (Decimal(n)[0] == '0' ==> n == 0)
  {
    assert forall d | 0 <= d < 10 :: DIGITS[d] as int == '0' as int + d;
    if n >= 10 {
      DecimalDenotes(n / 10);
      var front := Decimal(n / 10);
      assert Decimal(n)[..|front|] == front;
    } else {
      assert Decimal(n) == [DIGITS[n]];
      assert NumberOf([]) == 0;
    }
  }
}
