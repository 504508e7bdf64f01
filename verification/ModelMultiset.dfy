/**
 The sort-based model comparison: rows stripped of their identifiers, sorted by
 a canonical rendering and compared as lists.
 */
module ModelMultiset {
  import opened TextOrder
  import opened LeafDifferences

  // ---------------------------------------------- sorting by a rendered key

  /** Inserts before the first row whose key is not smaller, so equal keys keep their order. */
  function Insert<T>(x: T, rows: seq<T>, key: T -> string): seq<T> {
    if rows == [] then [x]
    else if Le(key(x), key(rows[0])) then [x] + rows
    else [rows[0]] + Insert(x, rows[1..], key)
  }

  /** The stable sort `sorted(rows, key=...)`. */
  function SortBy<T>(rows: seq<T>, key: T -> string): seq<T> {
    if rows == [] then [] else Insert(rows[0], SortBy(rows[1..], key), key)
  }

  ghost predicate Ordered<T>(rows: seq<T>, key: T -> string) {
    forall i, j | 0 <= i < j < |rows| :: Le(key(rows[i]), key(rows[j]))
  }

  lemma {:induction false} InsertSpec<T>(x: T, rows: seq<T>, key: T -> string)
    requires Ordered(rows, key)
    ensures multiset(Insert(x, rows, key)) == multiset(rows) + multiset{x}
    ensures Ordered(Insert(x, rows, key), key)
  {
    hide Le;
    if rows == [] {
    } else if Le(key(x), key(rows[0])) {
      forall j | 0 <= j < |rows| ensures Le(key(x), key(rows[j])) {
        if j > 0 {
          LeTransitive(key(x), key(rows[0]), key(rows[j]));
        }
      }
    } else {
      assert rows == [rows[0]] + rows[1..];
      InsertSpec(x, rows[1..], key);
      LeTotal(key(x), key(rows[0]));
      var rest := Insert(x, rows[1..], key);
      forall j | 0 <= j < |rest| ensures Le(key(rows[0]), key(rest[j])) {
        assert rest[j] in multiset(rest);
        assert rest[j] == x || rest[j] in rows[1..];
      }
    }
  }

  lemma {:induction false} SortSpec<T>(rows: seq<T>, key: T -> string)
    ensures multiset(SortBy(rows, key)) == multiset(rows)
    ensures Ordered(SortBy(rows, key), key)
  {
    if rows != [] {
      assert rows == [rows[0]] + rows[1..];
      SortSpec(rows[1..], key);
      InsertSpec(rows[0], SortBy(rows[1..], key), key);
    }
  }

  /** The rows with this rendering, in order. */
  ghost function RenderedAs<T>(rows: seq<T>, key: T -> string, text: string): seq<T> {
    if rows == [] then [] else (if key(rows[0]) == text then [rows[0]] else []) + RenderedAs(rows[1..], key, text)
  }

  lemma OneRendered<T>(x: T, key: T -> string, text: string)
    ensures RenderedAs([x], key, text) == if key(x) == text then [x] else []
  {
    assert [x][1..] == [] && RenderedAs([], key, text) == [];
  }

  lemma RenderedCons<T>(x: T, rows: seq<T>, key: T -> string, text: string)
    ensures RenderedAs([x] + rows, key, text) == RenderedAs([x], key, text) + RenderedAs(rows, key, text)
  {
    assert ([x] + rows)[1..] == rows;
    OneRendered(x, key, text);
  }

  lemma {:induction false} InsertStable<T>(x: T, rows: seq<T>, key: T -> string, text: string)
    ensures RenderedAs(Insert(x, rows, key), key, text) == RenderedAs([x], key, text) + RenderedAs(rows, key, text)
  {
    if rows == [] {
      assert RenderedAs([], key, text) == [];
    } else if Le(key(x), key(rows[0])) {
      RenderedCons(x, rows, key, text);
    } else {
      var first, rest := rows[0], Insert(x, rows[1..], key);
      assert Insert(x, rows, key) == [first] + rest && rows == [first] + rows[1..];
      LeTotal(key(x), key(x));
      assert key(x) != key(first);
      hide Insert, Le;
      InsertStable(x, rows[1..], key, text);
      RenderedCons(first, rest, key, text);
      RenderedCons(first, rows[1..], key, text);
      OneRendered(x, key, text);
      OneRendered(first, key, text);
      hide RenderedAs;
    }
  }

  /** The sort is stable: rows that render alike keep their order of arrival. */
  lemma {:induction false} SortStable<T>(rows: seq<T>, key: T -> string, text: string)
    ensures RenderedAs(SortBy(rows, key), key, text) == RenderedAs(rows, key, text)
  {
    if rows != [] {
      var x, rest, sorted := rows[0], rows[1..], SortBy(rows[1..], key);
      assert SortBy(rows, key) == Insert(x, sorted, key);
      assert RenderedAs(rows, key, text) == RenderedAs([x], key, text) + RenderedAs(rest, key, text) by {
        assert [x][1..] == [] && RenderedAs([], key, text) == [];
      }
      hide SortBy, RenderedAs, Insert, Le;
      SortStable(rest, key, text);
      InsertStable(x, sorted, key, text);
    }
  }

  ghost predicate InjectiveOn<T(!new)>(rows: seq<T>, key: T -> string) {
    forall x, y | x in rows && y in rows && key(x) == key(y) :: x == y
  }

  lemma HeadsAgree<T(!new)>(xs: seq<T>, ys: seq<T>, key: T -> string)
    requires Ordered(xs, key) && Ordered(ys, key) && multiset(xs) == multiset(ys)
    requires InjectiveOn(xs, key) && xs != [] && ys != []
    ensures xs[0] == ys[0]
  {
    hide Le;
    assert xs[0] in multiset(ys) && ys[0] in multiset(xs);
    var i :| 0 <= i < |ys| && ys[i] == xs[0];
    var j :| 0 <= j < |xs| && xs[j] == ys[0];
    LeTotal(key(xs[0]), key(xs[0]));
    assert Le(key(ys[0]), key(xs[0])) && Le(key(xs[0]), key(ys[0]));
    LeAntisymmetric(key(xs[0]), key(ys[0]));
  }

  lemma TailMultiset<T>(xs: seq<T>)
    requires xs != []
    ensures multiset(xs) == multiset{xs[0]} + multiset(xs[1..])
  {
    assert xs == [xs[0]] + xs[1..];
  }

  /** Rows told apart by their keys have only one ordered arrangement. */
  lemma {:induction false} OrderedUnique<T(!new)>(xs: seq<T>, ys: seq<T>, key: T -> string)
    requires Ordered(xs, key) && Ordered(ys, key) && multiset(xs) == multiset(ys)
    requires InjectiveOn(xs, key)
    ensures xs == ys
  {
    assert |xs| == |multiset(xs)| == |multiset(ys)| == |ys|;
    if xs != [] {
      HeadsAgree(xs, ys, key);
      SameTails(xs, ys);
      OrderedTail(xs, key);
      OrderedTail(ys, key);
      hide Ordered, InjectiveOn;
      OrderedUnique(xs[1..], ys[1..], key);
      assert xs == [xs[0]] + xs[1..] && ys == [ys[0]] + ys[1..];
    }
  }

  lemma OrderedTail<T(!new)>(xs: seq<T>, key: T -> string)
    requires xs != []
    ensures Ordered(xs, key) ==> Ordered(xs[1..], key)
    ensures InjectiveOn(xs, key) ==> InjectiveOn(xs[1..], key)
  {}

  lemma SameTails<T>(xs: seq<T>, ys: seq<T>)
    requires xs != [] && ys != [] && xs[0] == ys[0] && multiset(xs) == multiset(ys)
    ensures multiset(xs[1..]) == multiset(ys[1..])
  {
    TailMultiset(xs);
    TailMultiset(ys);
    assert multiset(xs[1..]) == multiset(xs) - multiset{xs[0]};
    assert multiset(ys[1..]) == multiset(ys) - multiset{ys[0]};
  }

  ghost predicate OrderBlind<T(!new)>(rows: seq<T>, key: T -> string) {
    forall other: seq<T> | multiset(other) == multiset(rows) :: SortBy(other, key) == SortBy(rows, key)
  }

  lemma InjectiveSortUnique<T(!new)>(rows: seq<T>, other: seq<T>, key: T -> string)
    requires InjectiveOn(rows, key) && multiset(other) == multiset(rows)
    ensures SortBy(other, key) == SortBy(rows, key)
  {
    SortSpec(rows, key);
    SortSpec(other, key);
    forall x | x in SortBy(other, key) ensures x in rows {
      assert x in multiset(SortBy(other, key));
    }
    OrderedUnique(SortBy(other, key), SortBy(rows, key), key);
  }

  /** The sorted list forgets the arrival order exactly when distinct rows have distinct renderings. */
  lemma OrderBlindExactly<T(!new)>(rows: seq<T>, key: T -> string)
    ensures OrderBlind(rows, key) <==> InjectiveOn(rows, key)
  {
    if InjectiveOn(rows, key) {
      forall other: seq<T> | multiset(other) == multiset(rows) ensures SortBy(other, key) == SortBy(rows, key) {
        InjectiveSortUnique(rows, other, key);
      }
    } else {
      var x, y :| x in rows && y in rows && key(x) == key(y) && x != y;
      CollisionShowsOrder(rows, x, y, key);
    }
  }

  lemma CollisionShowsOrder<T(!new)>(rows: seq<T>, x: T, y: T, key: T -> string)
    requires x in rows && y in rows && key(x) == key(y) && x != y
    ensures !OrderBlind(rows, key)
  {
    hide SortBy;
    var a, b := CollidingArrangements(rows, x, y, key);
  }

  /** Two arrangements of the rows that the sort leaves apart. */
  lemma CollidingArrangements<T>(rows: seq<T>, x: T, y: T, key: T -> string) returns (a: seq<T>, b: seq<T>)
    requires x in rows && y in rows && key(x) == key(y) && x != y
    ensures multiset(a) == multiset(rows) == multiset(b) && SortBy(a, key) != SortBy(b, key)
  {
    hide SortBy;
    var rest := WithoutTwo(rows, x, y);
    a, b := [x, y] + rest, [y, x] + rest;
    CollidingRowsKeepTheirOrder(x, y, rest, key);
    PairFirst(x, y, rest);
    PairFirst(y, x, rest);
    assert multiset{y, x} == multiset{x, y};
  }

  lemma PairFirst<T>(x: T, y: T, rest: seq<T>)
    ensures multiset([x, y] + rest) == multiset{x, y} + multiset(rest)
  {}

  lemma WithoutTwo<T>(rows: seq<T>, x: T, y: T) returns (rest: seq<T>)
    requires x in rows && y in rows && x != y
    ensures multiset(rows) == multiset{x, y} + multiset(rest)
  {
    var withoutX := WithoutOne(rows, x);
    assert y in multiset(rows);
    assert y in multiset(withoutX);
    rest := WithoutOne(withoutX, y);
  }

  lemma WithoutOne<T>(rows: seq<T>, x: T) returns (rest: seq<T>)
    requires x in rows
    ensures multiset(rows) == multiset{x} + multiset(rest)
  {
    var i :| 0 <= i < |rows| && rows[i] == x;
    rest := rows[..i] + rows[i + 1..];
    assert rows == rows[..i] + [rows[i]] + rows[i + 1..];
  }

  lemma {:induction false} SameSlot<T>(x: T, y: T, rows: seq<T>, key: T -> string)
    requires key(x) == key(y)
    ensures Insert(x, Insert(y, rows, key), key) == Insert(y, Insert(x, rows, key), key) ==> x == y
  {
    LeTotal(key(x), key(y));
    if rows != [] && !Le(key(x), key(rows[0])) {
      SameSlot(x, y, rows[1..], key);
      var a, b := Insert(x, Insert(y, rows, key), key), Insert(y, Insert(x, rows, key), key);
      assert a[1..] == Insert(x, Insert(y, rows[1..], key), key);
      assert b[1..] == Insert(y, Insert(x, rows[1..], key), key);
    } else {
      assert Insert(x, Insert(y, rows, key), key)[0] == x;
      assert Insert(y, Insert(x, rows, key), key)[0] == y;
    }
  }

  lemma CollidingRowsKeepTheirOrder<T>(x: T, y: T, rest: seq<T>, key: T -> string)
    requires key(x) == key(y) && x != y
    ensures SortBy([x, y] + rest, key) != SortBy([y, x] + rest, key)
  {
    assert ([x, y] + rest)[1..] == [y] + rest && ([y] + rest)[1..] == rest;
    assert ([y, x] + rest)[1..] == [x] + rest && ([x] + rest)[1..] == rest;
    SameSlot(x, y, SortBy(rest, key), key);
  }

  // ------------------------------------------------------- world-model rows

  type Model = map<string, Json>

  /** A dictionary of models in its insertion order. */
  type Models = seq<(string, Model)>

  const MODEL_ID := "model_id"

  function Erase(model: Model): Model {
    model - {MODEL_ID}
  }

  function Rows(models: Models): (rows: seq<Model>)
    ensures |rows| == |models| && forall i | 0 <= i < |models| :: rows[i] == Erase(models[i].1)
  {
    seq(|models|, i requires 0 <= i < |models| => Erase(models[i].1))
  }

  function ModelSemantics(models: Models, canonical: Model -> string): seq<Model> {
    SortBy(Rows(models), canonical)
  }

  /** With an injective rendering the comparison is equality of the identifier-free models as multisets. */
  lemma ComparisonIsMultisetEquality(a: Models, b: Models, canonical: Model -> string)
    requires InjectiveOn(Rows(a), canonical)
    ensures ModelSemantics(a, canonical) == ModelSemantics(b, canonical) <==> multiset(Rows(a)) == multiset(Rows(b))
  {
    SortSpec(Rows(a), canonical);
    SortSpec(Rows(b), canonical);
    if multiset(Rows(a)) == multiset(Rows(b)) {
      InjectiveSortUnique(Rows(a), Rows(b), canonical);
    }
  }

  /** Models under new dictionary keys and new identifiers. */
  function Renamed(models: Models, keys: string -> string, ids: Json -> Json): Models {
    seq(|models|, i requires 0 <= i < |models| =>
      (keys(models[i].0),
       if MODEL_ID in models[i].1 then models[i].1[MODEL_ID := ids(models[i].1[MODEL_ID])] else models[i].1))
  }

  /** Renaming keys and identifiers and then storing the models in any order changes nothing. */
  lemma RenamingAndReorderingInvariant(
    a: Models, b: Models, keys: string -> string, ids: Json -> Json, canonical: Model -> string)
    requires InjectiveOn(Rows(a), canonical)
    requires multiset(b) == multiset(Renamed(a, keys, ids))
    ensures ModelSemantics(a, canonical) == ModelSemantics(b, canonical)
  {
    var renamed := Renamed(a, keys, ids);
    forall i | 0 <= i < |a| ensures Rows(renamed)[i] == Rows(a)[i] {
      assert Erase(renamed[i].1) == Erase(a[i].1);
    }
    assert Rows(renamed) == Rows(a);
    RowsOfReordering(b, renamed);
    ComparisonIsMultisetEquality(a, b, canonical);
  }

  ghost function RowBag(models: Models): multiset<Model> {
    multiset(Rows(models))
  }

  lemma {:induction false} RowsOfReordering(a: Models, b: Models)
    requires multiset(a) == multiset(b)
    ensures RowBag(a) == RowBag(b)
    decreases |a|
  {
    hide RowBag, Erase;
    if a == [] {
      assert |b| == |multiset(b)| == |multiset(a)|;
    } else {
      var j := FindIn(a[0], a, b);
      RowsOfReordering(a[1..], b[..j] + b[j + 1..]);
      assert a[..0] + a[1..] == a[1..];
      RowsSplit(a, 0);
      RowsSplit(b, j);
    }
  }

  lemma FindIn<T>(x: T, a: seq<T>, b: seq<T>) returns (j: nat)
    requires a != [] && x == a[0] && multiset(a) == multiset(b)
    ensures j < |b| && b[j] == x
    ensures multiset(a[1..]) == multiset(b[..j] + b[j + 1..])
  {
    assert x in multiset(b);
    j :| 0 <= j < |b| && b[j] == x;
    var moved := [b[j]] + (b[..j] + b[j + 1..]);
    assert b == b[..j] + [b[j]] + b[j + 1..];
    assert multiset(moved) == multiset(b);
    SameTails(a, moved);
    assert moved[1..] == b[..j] + b[j + 1..];
  }

  lemma RowsSplit(models: Models, j: nat)
    requires j < |models|
    ensures RowBag(models) == multiset{Erase(models[j].1)} + RowBag(models[..j] + models[j + 1..])
  {
    var rows := Rows(models);
    assert rows == rows[..j] + [rows[j]] + rows[j + 1..];
    assert Rows(models[..j] + models[j + 1..]) == rows[..j] + rows[j + 1..];
  }

  /** The rows compared are the models in order, each with every field but its identifier. */
  lemma RowsMean(models: Models, i: nat)
    requires i < |models|
    ensures |Rows(models)| == |models|
    ensures forall field :: field in Rows(models)[i] <==> field in models[i].1 && field != "model_id"
    ensures forall field | field in Rows(models)[i] :: Rows(models)[i][field] == models[i].1[field]
  {}
}
