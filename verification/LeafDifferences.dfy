/** The structural diff: which rows it reports and what an empty report means. */
module LeafDifferences {
  import opened TextOrder
  import opened Trees

  datatype Atom = Null | Bool(b: bool) | Int(i: int) | Float(r: real)

  type Json = Tree<string, Atom>

  datatype Row = Row(path: string, control: Json, shadow: Json)

  const NONE: Json := Scalar(Null)

  /** `type(left) is type(right)`. */
  predicate SameType(left: Json, right: Json) {
    match left
    case Text(_) => right.Text?
    case List(_) => right.List?
    case Dict(_) => right.Dict?
    case Scalar(atom) =>
      right.Scalar? && match atom
        case Null => right.atom.Null?
        case Bool(_) => right.atom.Bool?
        case Int(_) => right.atom.Int?
        case Float(_) => right.atom.Float?
  }

  function Join(path: seq<string>): string {
    if path == [] then ""
    else if |path| == 1 then path[0]
    else path[0] + "/" + Join(path[1..])
  }

  function Get(fields: map<string, Json>, key: string): Json {
    if key in fields then fields[key] else NONE
  }

  function Length(items: seq<Json>): Json {
    Scalar(Int(|items|))
  }

  function LengthRow(left: seq<Json>, right: seq<Json>, path: seq<string>): seq<Row> {
    if |left| != |right| then [Row(Join(path + ["<length>"]), Length(left), Length(right))] else []
  }

  // ---------------------------------------------------------- specification

  ghost function Diff(left: Json, right: Json, path: seq<string>): seq<Row>
    decreases left, 1, 0
  {
    if !SameType(left, right) then [Row(Join(path), left, right)]
    else if left.Dict? then DiffFields(left, right, Sorted(left.fields.Keys + right.fields.Keys), path)
    else if left.List? then LengthRow(left.items, right.items, path) + DiffItems(left, right, 0, path)
    else if left != right then [Row(Join(path), left, right)]
    else []
  }

  ghost function DiffFields(left: Json, right: Json, keys: seq<string>, path: seq<string>): seq<Row>
    requires left.Dict? && right.Dict?
    requires forall key | key in keys :: key in left.fields || key in right.fields
    decreases left, 0, |keys|
  {
    if keys == [] then [] else RowsAtKey(left, right, keys[0], path) + DiffFields(left, right, keys[1..], path)
  }

  ghost function RowsAtKey(left: Json, right: Json, key: string, path: seq<string>): seq<Row>
    requires left.Dict? && right.Dict? && (key in left.fields || key in right.fields)
    decreases left, 0, 0
  {
    if key !in left.fields || key !in right.fields
    then [Row(Join(path + [key]), Get(left.fields, key), Get(right.fields, key))]
    else Diff(left.fields[key], right.fields[key], path + [key])
  }

  /** The rows of the pairs of items from position `from` on. */
  ghost function DiffItems(left: Json, right: Json, from: nat, path: seq<string>): seq<Row>
    requires left.List? && right.List?
    decreases left, 0, |left.items| - from
  {
    if from >= |left.items| || from >= |right.items| then []
    else Diff(left.items[from], right.items[from], path + [Decimal(from)]) + DiffItems(left, right, from + 1, path)
  }

  // -------------------------------------------------------------- the method

  method LeafDifferences(left: Json, right: Json, path: seq<string>) returns (rows: seq<Row>)
    ensures rows == Diff(left, right, path)
    decreases left, 1, 0
  {
    hide LengthRow, SameType;
    if !SameType(left, right) {
      return [Row(Join(path), left, right)];
    }
    TypesAgree(left, right);
    if left.Dict? {
      var keys := SortNames(left.fields.Keys + right.fields.Keys);
      rows := FieldDifferences(left, right, keys, path);
    } else if left.List? {
      var itemRows := ItemDifferences(left, right, path);
      rows := LengthRow(left.items, right.items, path) + itemRows;
    } else if left != right {
      rows := [Row(Join(path), left, right)];
    } else {
      rows := [];
    }
  }

  lemma TypesAgree(left: Json, right: Json)
    requires SameType(left, right)
    ensures left.Dict? <==> right.Dict?
    ensures left.List? <==> right.List?
  {}

  method FieldDifferences(left: Json, right: Json, keys: seq<string>, path: seq<string>) returns (rows: seq<Row>)
    requires left.Dict? && right.Dict?
    requires forall key | key in keys :: key in left.fields || key in right.fields
    ensures rows == DiffFields(left, right, keys, path)
    decreases left, 0, 1
  {
    rows := [];
    var i := 0;
    while i < |keys|
      invariant 0 <= i <= |keys|
      invariant rows + DiffFields(left, right, keys[i..], path) == DiffFields(left, right, keys, path)
    {
      hide Diff, Join, RowsAtKey;
      var more := DifferencesAtKey(left, right, keys[i], path);
      assert keys[i..][1..] == keys[i + 1..];
      assert rows + (more + DiffFields(left, right, keys[i + 1..], path)) == (rows + more) + DiffFields(left, right, keys[i + 1..], path);
      rows := rows + more;
      i := i + 1;
    }
  }

  method DifferencesAtKey(left: Json, right: Json, key: string, path: seq<string>) returns (rows: seq<Row>)
    requires left.Dict? && right.Dict? && (key in left.fields || key in right.fields)
    ensures rows == RowsAtKey(left, right, key, path)
    decreases left, 0, 0
  {
    if key !in left.fields || key !in right.fields {
      rows := [Row(Join(path + [key]), Get(left.fields, key), Get(right.fields, key))];
    } else {
      rows := LeafDifferences(left.fields[key], right.fields[key], path + [key]);
    }
  }

  method ItemDifferences(left: Json, right: Json, path: seq<string>) returns (rows: seq<Row>)
    requires left.List? && right.List?
    ensures rows == DiffItems(left, right, 0, path)
    decreases left, 0, 0
  {
    hide Diff, Join, Decimal;
    rows := [];
    var i := 0;
    while i < |left.items| && i < |right.items|
      invariant 0 <= i
      invariant rows + DiffItems(left, right, i, path) == DiffItems(left, right, 0, path)
    {
      var more := LeafDifferences(left.items[i], right.items[i], path + [Decimal(i)]);
      assert DiffItems(left, right, i, path) == more + DiffItems(left, right, i + 1, path);
      rows := rows + more;
      i := i + 1;
    }
  }

  // ---------------------------------------------------------------- meaning

  /** Following `steps` from the two roots arrives at this genuine difference. */
  ghost predicate LeadsTo(left: Json, right: Json, steps: seq<string>, control: Json, shadow: Json)
    decreases left
  {
    if !SameType(left, right) then steps == [] && control == left && shadow == right
    else if left.Dict? then
      steps != [] && var key := steps[0];
      if key in left.fields && key in right.fields
      then LeadsTo(left.fields[key], right.fields[key], steps[1..], control, shadow)
      else |steps| == 1 && (key in left.fields || key in right.fields)
           && control == Get(left.fields, key) && shadow == Get(right.fields, key)
    else if left.List? then
      || (steps == ["<length>"] && |left.items| != |right.items| && control == Length(left.items) && shadow == Length(right.items))
      || (steps != [] && exists i | 0 <= i < |left.items| && i < |right.items| ::
            steps[0] == Decimal(i) && LeadsTo(left.items[i], right.items[i], steps[1..], control, shadow))
    else left != right && steps == [] && control == left && shadow == right
  }

  ghost predicate Explained(left: Json, right: Json, path: seq<string>, row: Row) {
    exists steps :: row.path == Join(path + steps) && LeadsTo(left, right, steps, row.control, row.shadow)
  }

  /** The report holds exactly the genuine differences, each under the path that leads to it. */
  lemma {:induction false} RowsAreExactlyTheDifferences(left: Json, right: Json, path: seq<string>, row: Row)
    ensures row in Diff(left, right, path) <==> Explained(left, right, path, row)
    decreases left, 1, 0
  {
    if !SameType(left, right) || (!left.Dict? && !left.List?) {
      assert path + [] == path;
      if row in Diff(left, right, path) {
        assert row.path == Join(path + []) && LeadsTo(left, right, [], row.control, row.shadow);
      }
      if Explained(left, right, path, row) {
        var steps :| row.path == Join(path + steps) && LeadsTo(left, right, steps, row.control, row.shadow);
      }
    } else if left.Dict? {
      FieldRows(left, right, Sorted(left.fields.Keys + right.fields.Keys), path, row);
      DictExplained(left, right, path, row);
    } else {
      ItemRows(left, right, 0, path, row);
      ListExplained(left, right, path, row);
    }
  }

  ghost predicate ExplainedAtKey(left: Json, right: Json, path: seq<string>, row: Row, key: string)
    requires left.Dict? && right.Dict?
  {
    if key in left.fields && key in right.fields
    then Explained(left.fields[key], right.fields[key], path + [key], row)
    else (key in left.fields || key in right.fields)
         && row == Row(Join(path + [key]), Get(left.fields, key), Get(right.fields, key))
  }

  lemma DictExplained(left: Json, right: Json, path: seq<string>, row: Row)
    requires left.Dict? && right.Dict?
    ensures Explained(left, right, path, row) <==> exists key :: ExplainedAtKey(left, right, path, row, key)
  {
    hide Join;
    if Explained(left, right, path, row) {
      var steps :| row.path == Join(path + steps) && LeadsTo(left, right, steps, row.control, row.shadow);
      assert path + steps == (path + [steps[0]]) + steps[1..];
      if |steps| == 1 {
        assert path + steps == path + [steps[0]];
      }
      assert ExplainedAtKey(left, right, path, row, steps[0]);
    }
    if key :| ExplainedAtKey(left, right, path, row, key) {
      if key in left.fields && key in right.fields {
        var rest :| row.path == Join((path + [key]) + rest)
          && LeadsTo(left.fields[key], right.fields[key], rest, row.control, row.shadow);
        assert (path + [key]) + rest == path + ([key] + rest);
        assert ([key] + rest)[1..] == rest;
        assert LeadsTo(left, right, [key] + rest, row.control, row.shadow);
      } else {
        assert LeadsTo(left, right, [key], row.control, row.shadow);
      }
    }
  }

  lemma {:induction false} FieldRows(left: Json, right: Json, keys: seq<string>, path: seq<string>, row: Row)
    requires left.Dict? && right.Dict?
    requires forall key | key in keys :: key in left.fields || key in right.fields
    ensures row in DiffFields(left, right, keys, path) <==> exists key | key in keys :: ExplainedAtKey(left, right, path, row, key)
    decreases left, 0, |keys|
  {
    hide Explained, Diff;
    if keys != [] {
      var key := keys[0];
      if key in left.fields && key in right.fields {
        RowsAreExactlyTheDifferences(left.fields[key], right.fields[key], path + [key], row);
      }
      FieldRows(left, right, keys[1..], path, row);
      var more, rest := RowsAtKey(left, right, key, path), DiffFields(left, right, keys[1..], path);
      assert DiffFields(left, right, keys, path) == more + rest;
      assert row in more <==> ExplainedAtKey(left, right, path, row, key);
      assert forall other :: other in keys <==> other == key || other in keys[1..];
    }
  }

  ghost predicate ExplainedAtItem(left: Json, right: Json, path: seq<string>, row: Row, i: nat)
    requires left.List? && right.List?
  {
    i < |left.items| && i < |right.items| && Explained(left.items[i], right.items[i], path + [Decimal(i)], row)
  }

  lemma ListExplained(left: Json, right: Json, path: seq<string>, row: Row)
    requires left.List? && right.List?
    ensures Explained(left, right, path, row) <==>
              || (|left.items| != |right.items| && row == Row(Join(path + ["<length>"]), Length(left.items), Length(right.items)))
              || exists i :: ExplainedAtItem(left, right, path, row, i)
  {
    hide Join, Decimal;
    if Explained(left, right, path, row) {
      var steps :| row.path == Join(path + steps) && LeadsTo(left, right, steps, row.control, row.shadow);
      if i :| 0 <= i < |left.items| && i < |right.items| && steps != []
              && steps[0] == Decimal(i) && LeadsTo(left.items[i], right.items[i], steps[1..], row.control, row.shadow)
      {
        assert path + steps == (path + [Decimal(i)]) + steps[1..];
        assert ExplainedAtItem(left, right, path, row, i);
      }
    }
    if |left.items| != |right.items| && row == Row(Join(path + ["<length>"]), Length(left.items), Length(right.items)) {
      assert LeadsTo(left, right, ["<length>"], row.control, row.shadow);
    }
    if i: nat :| ExplainedAtItem(left, right, path, row, i) {
      var rest :| row.path == Join((path + [Decimal(i)]) + rest)
        && LeadsTo(left.items[i], right.items[i], rest, row.control, row.shadow);
      assert (path + [Decimal(i)]) + rest == path + ([Decimal(i)] + rest);
      assert ([Decimal(i)] + rest)[1..] == rest;
      assert LeadsTo(left, right, [Decimal(i)] + rest, row.control, row.shadow);
    }
  }

  lemma {:induction false} ItemRows(left: Json, right: Json, from: nat, path: seq<string>, row: Row)
    requires left.List? && right.List?
    ensures row in DiffItems(left, right, from, path) <==> exists i :: from <= i && ExplainedAtItem(left, right, path, row, i)
    decreases left, 0, |left.items| - from
  {
    hide Explained, Diff, Decimal;
    if from < |left.items| && from < |right.items| {
      RowsAreExactlyTheDifferences(left.items[from], right.items[from], path + [Decimal(from)], row);
      ItemRows(left, right, from + 1, path, row);
      var more, rest := Diff(left.items[from], right.items[from], path + [Decimal(from)]), DiffItems(left, right, from + 1, path);
      assert DiffItems(left, right, from, path) == more + rest;
      assert row in more <==> ExplainedAtItem(left, right, path, row, from);
    }
  }

  /** An empty report means equal values with equal types at every position, and conversely. */
  lemma {:induction false} EmptyExactlyWhenEqual(left: Json, right: Json, path: seq<string>)
    ensures Diff(left, right, path) == [] <==> left == right
    decreases left, 1, 0
  {
    if SameType(left, right) {
      if left.Dict? {
        FieldsEmpty(left, right, Sorted(left.fields.Keys + right.fields.Keys), path);
        if forall key | key in left.fields.Keys + right.fields.Keys ::
          key in left.fields && key in right.fields && left.fields[key] == right.fields[key]
        {
          assert left.fields.Keys == right.fields.Keys;
          assert left.fields == right.fields;
        }
      } else if left.List? {
        ItemsEmpty(left, right, 0, path);
        if |left.items| == |right.items| && forall i | 0 <= i < |left.items| :: left.items[i] == right.items[i] {
          assert left.items == right.items;
        }
      }
    }
  }

  lemma {:induction false} FieldsEmpty(left: Json, right: Json, keys: seq<string>, path: seq<string>)
    requires left.Dict? && right.Dict?
    requires forall key | key in keys :: key in left.fields || key in right.fields
    ensures DiffFields(left, right, keys, path) == [] <==>
              forall key | key in keys :: key in left.fields && key in right.fields && left.fields[key] == right.fields[key]
    decreases left, 0, |keys|
  {
    hide Diff;
    if keys != [] {
      var key := keys[0];
      if key in left.fields && key in right.fields {
        EmptyExactlyWhenEqual(left.fields[key], right.fields[key], path + [key]);
      }
      FieldsEmpty(left, right, keys[1..], path);
      assert forall other :: other in keys <==> other == key || other in keys[1..];
    }
  }

  lemma {:induction false} ItemsEmpty(left: Json, right: Json, from: nat, path: seq<string>)
    requires left.List? && right.List?
    ensures DiffItems(left, right, from, path) == [] <==>
              forall i | from <= i < |left.items| && i < |right.items| :: left.items[i] == right.items[i]
    decreases left, 0, |left.items| - from
  {
    hide Diff, Decimal;
    if from < |left.items| && from < |right.items| {
      EmptyExactlyWhenEqual(left.items[from], right.items[from], path + [Decimal(from)]);
      ItemsEmpty(left, right, from + 1, path);
    }
  }

  function Swapped(rows: seq<Row>): seq<Row> {
    if rows == [] then [] else [Row(rows[0].path, rows[0].shadow, rows[0].control)] + Swapped(rows[1..])
  }

  lemma {:induction false} SwappedConcat(a: seq<Row>, b: seq<Row>)
    ensures Swapped(a + b) == Swapped(a) + Swapped(b)
  {
    if a == [] {
      assert a + b == b;
    } else {
      assert (a + b)[1..] == a[1..] + b;
      SwappedConcat(a[1..], b);
    }
  }

  /** Exchanging the arguments gives the same rows in the same order with the two values exchanged. */
  lemma {:induction false} SwapExchangesColumns(left: Json, right: Json, path: seq<string>)
    ensures Diff(right, left, path) == Swapped(Diff(left, right, path))
    decreases left, 1, 0
  {
    hide Join;
    if SameType(left, right) {
      if left.Dict? {
        var keys := Sorted(left.fields.Keys + right.fields.Keys);
        assert left.fields.Keys + right.fields.Keys == right.fields.Keys + left.fields.Keys;
        FieldsSwap(left, right, keys, path);
      } else if left.List? {
        ItemsSwap(left, right, 0, path);
        SwappedConcat(LengthRow(left.items, right.items, path), DiffItems(left, right, 0, path));
      }
    }
  }

  lemma {:induction false} FieldsSwap(left: Json, right: Json, keys: seq<string>, path: seq<string>)
    requires left.Dict? && right.Dict?
    requires forall key | key in keys :: key in left.fields || key in right.fields
    ensures DiffFields(right, left, keys, path) == Swapped(DiffFields(left, right, keys, path))
    decreases left, 0, |keys|
  {
    hide Diff, Join;
    if keys != [] {
      var key := keys[0];
      FieldsSwap(left, right, keys[1..], path);
      if key in left.fields && key in right.fields {
        SwapExchangesColumns(left.fields[key], right.fields[key], path + [key]);
        SwappedConcat(Diff(left.fields[key], right.fields[key], path + [key]), DiffFields(left, right, keys[1..], path));
      } else {
        SwappedConcat([Row(Join(path + [key]), Get(left.fields, key), Get(right.fields, key))], DiffFields(left, right, keys[1..], path));
      }
    }
  }

  lemma {:induction false} ItemsSwap(left: Json, right: Json, from: nat, path: seq<string>)
    requires left.List? && right.List?
    ensures DiffItems(right, left, from, path) == Swapped(DiffItems(left, right, from, path))
    decreases left, 0, |left.items| - from
  {
    hide Diff, Join, Decimal;
    if from < |left.items| && from < |right.items| {
      SwapExchangesColumns(left.items[from], right.items[from], path + [Decimal(from)]);
      ItemsSwap(left, right, from + 1, path);
      SwappedConcat(Diff(left.items[from], right.items[from], path + [Decimal(from)]), DiffItems(left, right, from + 1, path));
    }
  }

  // ------------------------------------------------------ what a row records

  /** A path is its steps with one slash between neighbours. */
  lemma {:induction false} JoinMeans(front: seq<string>, back: seq<string>)
    ensures Join([]) == "" && forall step :: Join([step]) == step
    ensures front != [] && back != [] ==> Join(front + back) == Join(front) + "/" + Join(back)
  {
    if front != [] && back != [] {
      if |front| == 1 {
        assert (front + back)[1..] == back;
      } else {
        assert (front + back)[1..] == front[1..] + back && (front + back)[0] == front[0];
        JoinMeans(front[1..], back);
      }
    }
  }

  /** A missing key is recorded as null, and a length as that number. */
  lemma RecordedSides(fields: map<string, Json>, key: string, items: seq<Json>)
    ensures key in fields ==> Get(fields, key) == fields[key]
    ensures key !in fields ==> Get(fields, key) == Scalar(Null)
    ensures Length(items) == Scalar(Int(|items|))
  {}

  /** Types agree for equal trees, and only between trees of one kind; numbers of different types do not agree. */
  lemma TypesMean(left: Json, right: Json)
    ensures SameType(left, right) <==>
              || (left.Text? && right.Text?) || (left.List? && right.List?) || (left.Dict? && right.Dict?)
              || (left == Scalar(Null) && right == Scalar(Null))
              || (exists a, b :: left == Scalar(Bool(a)) && right == Scalar(Bool(b)))
              || (exists a, b :: left == Scalar(Int(a)) && right == Scalar(Int(b)))
              || (exists a, b :: left == Scalar(Float(a)) && right == Scalar(Float(b)))
  {
    if left.Scalar? && right.Scalar? && SameType(left, right) {
      match left.atom {
        case Null =>
        case Bool(a) => assert left == Scalar(Bool(a)) && right == Scalar(Bool(right.atom.b));
        case Int(a) => assert left == Scalar(Int(a)) && right == Scalar(Int(right.atom.i));
        case Float(a) => assert left == Scalar(Float(a)) && right == Scalar(Float(right.atom.r));
      }
    }
  }
}
