/**
 The structural diff lists every difference once and in reading order: keys by
 name, a length mismatch before the items, and items by position.
 */
module DifferenceOrder {
  import opened LeafDifferences
  import opened TextOrder
  import opened Trees

  /** In this tree the path `p` is met before the path `q`. */
  ghost predicate Before(left: Json, p: seq<string>, q: seq<string>)
    decreases left
  {
    p != [] && q != [] &&
    match left
    case Dict(fields) => if p[0] == q[0] then p[0] in fields && Before(fields[p[0]], p[1..], q[1..]) else Lt(p[0], q[0])
    case List(items) =>
      if p[0] == q[0] then exists i | 0 <= i < |items| :: p[0] == Decimal(i) && Before(items[i], p[1..], q[1..])
      else p[0] == "<length>" || (q[0] != "<length>" && NumberOf(p[0]) < NumberOf(q[0]))
    case _ => false
  }

  /** No place comes before itself, so places in order are all different. */
  lemma {:induction false} NotBeforeItself(left: Json, p: seq<string>)
    ensures !Before(left, p, p)
    decreases left
  {
    if p != [] {
      if left.Dict? && p[0] in left.fields {
        NotBeforeItself(left.fields[p[0]], p[1..]);
      }
      if left.List? {
        forall i | 0 <= i < |left.items| ensures !Before(left.items[i], p[1..], p[1..]) {
          NotBeforeItself(left.items[i], p[1..]);
        }
      }
    }
  }

  /** One place shows one difference. */
  lemma {:induction false} OneDifferencePerPlace(left: Json, right: Json, p: seq<string>, c: Json, s: Json, c': Json, s': Json)
    requires LeadsTo(left, right, p, c, s) && LeadsTo(left, right, p, c', s')
    ensures c == c' && s == s'
    decreases left
  {
    if SameType(left, right) {
      if left.Dict? {
        if p[0] in left.fields && p[0] in right.fields {
          OneDifferencePerPlace(left.fields[p[0]], right.fields[p[0]], p[1..], c, s, c', s');
        }
      } else if left.List? {
        forall k: nat ensures Decimal(k) != "<length>" {
          DecimalIsNotLength(k);
        }
        if p != ["<length>"] {
          var i :| 0 <= i < |left.items| && i < |right.items| && p[0] == Decimal(i) && LeadsTo(left.items[i], right.items[i], p[1..], c, s);
          var j :| 0 <= j < |left.items| && j < |right.items| && p[0] == Decimal(j) && LeadsTo(left.items[j], right.items[j], p[1..], c', s');
          DecimalInjective(i, j);
          OneDifferencePerPlace(left.items[i], right.items[i], p[1..], c, s, c', s');
        }
      }
    }
  }

  lemma DecimalIsNotLength(k: nat)
    ensures Decimal(k) != "<length>"
  {
    assert "<length>"[0] !in DIGITS;
    assert Decimal(k)[0] in DIGITS;
  }

  // -------------------------------------------------- the places of a report

  /** Row by row, these are the places the report is about, in order. */
  ghost predicate Lists(left: Json, right: Json, path: seq<string>, rows: seq<Row>, places: seq<seq<string>>) {
    && |places| == |rows|
    && (forall k | 0 <= k < |rows| :: rows[k].path == Join(path + places[k]) && LeadsTo(left, right, places[k], rows[k].control, rows[k].shadow))
    && (forall i, j | 0 <= i < j < |places| :: Before(left, places[i], places[j]))
  }

  ghost predicate AllListed(left: Json, right: Json, places: seq<seq<string>>) {
    forall steps, control, shadow | LeadsTo(left, right, steps, control, shadow) :: steps in places
  }

  ghost function Prefixed(step: string, places: seq<seq<string>>): seq<seq<string>> {
    seq(|places|, k requires 0 <= k < |places| => [step] + places[k])
  }

  lemma ListsAppend(
      left: Json, right: Json, path: seq<string>, rows: seq<Row>, places: seq<seq<string>>, rows': seq<Row>, places': seq<seq<string>>)
    requires Lists(left, right, path, rows, places) && Lists(left, right, path, rows', places')
    requires forall p, q | p in places && q in places' :: Before(left, p, q)
    ensures Lists(left, right, path, rows + rows', places + places')
  {
    hide Before, LeadsTo, Join;
  }

  /** One step down, in a dictionary or a list. */
  ghost predicate Child(left: Json, right: Json, step: string, l: Json, r: Json) {
    if left.Dict? then right.Dict? && step in left.fields && step in right.fields && l == left.fields[step] && r == right.fields[step]
    else left.List? && right.List? && exists i | 0 <= i < |left.items| && i < |right.items| ::
           step == Decimal(i) && l == left.items[i] && r == right.items[i]
  }

  lemma ChildLeads(left: Json, right: Json, step: string, l: Json, r: Json, rest: seq<string>, control: Json, shadow: Json)
    requires Child(left, right, step, l, r)
    ensures LeadsTo(left, right, [step] + rest, control, shadow) <==> LeadsTo(l, r, rest, control, shadow)
  {
    var steps := [step] + rest;
    assert steps[1..] == rest;
    if left.List? {
      var i :| 0 <= i < |left.items| && i < |right.items| && step == Decimal(i) && l == left.items[i] && r == right.items[i];
      DecimalIsNotLength(i);
      forall j: nat | Decimal(j) == step ensures j == i {
        DecimalInjective(j, i);
      }
      assert steps[0] == Decimal(i);
    }
  }

  lemma ChildBefore(left: Json, right: Json, step: string, l: Json, r: Json, p: seq<string>, q: seq<string>)
    requires Child(left, right, step, l, r) && Before(l, p, q)
    ensures Before(left, [step] + p, [step] + q)
  {
    assert ([step] + p)[1..] == p && ([step] + q)[1..] == q;
  }

  lemma ChildLists(
      left: Json, right: Json, path: seq<string>, step: string, l: Json, r: Json, rows: seq<Row>, places: seq<seq<string>>)
    requires Child(left, right, step, l, r) && Lists(l, r, path + [step], rows, places)
    ensures Lists(left, right, path, rows, Prefixed(step, places))
  {
    hide Before, LeadsTo, Join, Child;
    forall k | 0 <= k < |rows|
      ensures rows[k].path == Join(path + Prefixed(step, places)[k])
           && LeadsTo(left, right, Prefixed(step, places)[k], rows[k].control, rows[k].shadow)
    {
      assert path + ([step] + places[k]) == (path + [step]) + places[k];
      ChildLeads(left, right, step, l, r, places[k], rows[k].control, rows[k].shadow);
    }
    forall i, j | 0 <= i < j < |places| ensures Before(left, [step] + places[i], [step] + places[j]) {
      ChildBefore(left, right, step, l, r, places[i], places[j]);
    }
  }

  lemma ChildListed(left: Json, right: Json, step: string, l: Json, r: Json, places: seq<seq<string>>, steps: seq<string>, control: Json, shadow: Json)
    requires Child(left, right, step, l, r) && AllListed(l, r, places)
    requires steps != [] && steps[0] == step && LeadsTo(left, right, steps, control, shadow)
    ensures steps in Prefixed(step, places)
  {
    hide LeadsTo, Child;
    assert steps == [step] + steps[1..];
    ChildLeads(left, right, step, l, r, steps[1..], control, shadow);
    var k :| 0 <= k < |places| && places[k] == steps[1..];
    assert Prefixed(step, places)[k] == steps;
  }

  lemma DictLeads(left: Json, right: Json, steps: seq<string>, control: Json, shadow: Json)
    requires left.Dict? && right.Dict? && LeadsTo(left, right, steps, control, shadow)
    ensures steps != [] && steps[0] in left.fields.Keys + right.fields.Keys
    ensures steps[0] !in left.fields || steps[0] !in right.fields ==> steps == [steps[0]]
  {}

  lemma OneSidedLists(left: Json, right: Json, path: seq<string>, key: string)
    requires left.Dict? && right.Dict? && (key in left.fields <==> key !in right.fields)
    ensures Lists(left, right, path, RowsAtKey(left, right, key, path), [[key]])
  {
    assert LeadsTo(left, right, [key], Get(left.fields, key), Get(right.fields, key));
    hide LeadsTo, Join, Before;
  }

  lemma {:induction false} KeyPlaces(left: Json, right: Json, key: string, path: seq<string>) returns (places: seq<seq<string>>)
    requires left.Dict? && right.Dict? && (key in left.fields || key in right.fields)
    ensures Lists(left, right, path, RowsAtKey(left, right, key, path), places)
    ensures forall p | p in places :: p != [] && p[0] == key
    ensures forall steps, control, shadow | LeadsTo(left, right, steps, control, shadow) && steps != [] && steps[0] == key :: steps in places
    decreases left, 0, 0
  {
    if key in left.fields && key in right.fields {
      var l, r := left.fields[key], right.fields[key];
      assert Child(left, right, key, l, r);
      var below := PlacesInOrder(l, r, path + [key]);
      hide LeadsTo, Child, Lists, AllListed, Before, Join;
      ChildLists(left, right, path, key, l, r, Diff(l, r, path + [key]), below);
      places := Prefixed(key, below);
      forall steps, control, shadow | LeadsTo(left, right, steps, control, shadow) && steps != [] && steps[0] == key ensures steps in places {
        ChildListed(left, right, key, l, r, below, steps, control, shadow);
      }
    } else {
      OneSidedLists(left, right, path, key);
      places := [[key]];
      forall steps, control, shadow | LeadsTo(left, right, steps, control, shadow) && steps != [] && steps[0] == key ensures steps in places {
        DictLeads(left, right, steps, control, shadow);
      }
    }
  }

  lemma {:induction false} FieldPlaces(left: Json, right: Json, keys: seq<string>, path: seq<string>) returns (places: seq<seq<string>>)
    requires left.Dict? && right.Dict? && StrictlySorted(keys)
    requires forall key | key in keys :: key in left.fields || key in right.fields
    ensures Lists(left, right, path, DiffFields(left, right, keys, path), places)
    ensures forall p | p in places :: p != [] && p[0] in keys
    ensures forall steps, control, shadow | LeadsTo(left, right, steps, control, shadow) && steps != [] && steps[0] in keys :: steps in places
    decreases left, 0, |keys|
  {
    if keys == [] {
      places := [];
    } else {
      var key, rest := keys[0], keys[1..];
      var mine := KeyPlaces(left, right, key, path);
      var others := FieldPlaces(left, right, rest, path);
      forall p, q | p in mine && q in others ensures Before(left, p, q) {
        KeysBefore(left, keys, p, q);
      }
      hide LeadsTo, Lists, Before, RowsAtKey, Lt;
      ListsAppend(left, right, path, RowsAtKey(left, right, key, path), mine, DiffFields(left, right, rest, path), others);
      places := mine + others;
      assert keys == [key] + rest;
    }
  }

  lemma KeysBefore(left: Json, keys: seq<string>, p: seq<string>, q: seq<string>)
    requires left.Dict? && keys != [] && StrictlySorted(keys) && p != [] && q != [] && p[0] == keys[0] && q[0] in keys[1..]
    ensures Before(left, p, q)
  {
    var k :| 0 <= k < |keys[1..]| && keys[1..][k] == q[0];
    assert Lt(keys[0], keys[k + 1]);
  }

  /** Every difference below items from position `from` on has its place here. */
  ghost predicate ItemsListed(left: Json, right: Json, from: nat, places: seq<seq<string>>)
    requires left.List? && right.List?
  {
    forall steps, control, shadow, i: nat |
      LeadsTo(left, right, steps, control, shadow) && steps != [] && steps[0] == Decimal(i)
      && from <= i < |left.items| && i < |right.items| :: steps in places
  }

  ghost predicate ItemSteps(from: nat, places: seq<seq<string>>) {
    forall p | p in places :: p != [] && exists i: nat :: from <= i && p[0] == Decimal(i)
  }

  lemma {:induction false} ItemPlaces(left: Json, right: Json, from: nat, path: seq<string>) returns (places: seq<seq<string>>)
    requires left.List? && right.List?
    ensures Lists(left, right, path, DiffItems(left, right, from, path), places)
    ensures ItemSteps(from, places) && ItemsListed(left, right, from, places)
    decreases left, 0, |left.items| - from
  {
    if from >= |left.items| || from >= |right.items| {
      places := [];
    } else {
      var below := PlacesInOrder(left.items[from], right.items[from], path + [Decimal(from)]);
      var others := ItemPlaces(left, right, from + 1, path);
      places := NextItemPlaces(left, right, from, path, below, others);
    }
  }

  lemma NextItemPlaces(left: Json, right: Json, from: nat, path: seq<string>, below: seq<seq<string>>, others: seq<seq<string>>)
    returns (places: seq<seq<string>>)
    requires left.List? && right.List? && from < |left.items| && from < |right.items|
    requires var l, r := left.items[from], right.items[from];
             Lists(l, r, path + [Decimal(from)], Diff(l, r, path + [Decimal(from)]), below) && AllListed(l, r, below)
    requires Lists(left, right, path, DiffItems(left, right, from + 1, path), others)
    requires ItemSteps(from + 1, others) && ItemsListed(left, right, from + 1, others)
    ensures Lists(left, right, path, DiffItems(left, right, from, path), places)
    ensures ItemSteps(from, places) && ItemsListed(left, right, from, places)
  {
    var step, l, r := Decimal(from), left.items[from], right.items[from];
    assert Child(left, right, step, l, r);
    assert DiffItems(left, right, from, path) == Diff(l, r, path + [step]) + DiffItems(left, right, from + 1, path);
    hide LeadsTo, Child, Lists, AllListed, Before, Join, Diff, DiffItems, Decimal;
    var mine := Prefixed(step, below);
    ChildLists(left, right, path, step, l, r, Diff(l, r, path + [step]), below);
    forall p, q | p in mine && q in others ensures Before(left, p, q) {
      var i: nat :| from + 1 <= i && q[0] == Decimal(i);
      ItemsBefore(left, from, i, p, q);
    }
    ListsAppend(left, right, path, Diff(l, r, path + [step]), mine, DiffItems(left, right, from + 1, path), others);
    places := mine + others;
    forall steps, control, shadow, i: nat |
      LeadsTo(left, right, steps, control, shadow) && steps != [] && steps[0] == Decimal(i)
      && from <= i < |left.items| && i < |right.items| ensures steps in places
    {
      if i == from {
        ChildListed(left, right, step, l, r, below, steps, control, shadow);
      }
    }
  }

  lemma ItemsBefore(left: Json, i: nat, j: nat, p: seq<string>, q: seq<string>)
    requires left.List? && i < j && p != [] && q != [] && p[0] == Decimal(i) && q[0] == Decimal(j)
    ensures Before(left, p, q)
  {
    DecimalDenotes(i);
    DecimalDenotes(j);
    DecimalIsNotLength(j);
  }

  lemma LengthBefore(left: Json, i: nat, q: seq<string>)
    requires left.List? && q != [] && q[0] == Decimal(i)
    ensures Before(left, ["<length>"], q)
  {
    DecimalIsNotLength(i);
  }

  lemma LengthLists(left: Json, right: Json, path: seq<string>)
    requires left.List? && right.List?
    ensures Lists(left, right, path, LengthRow(left.items, right.items, path), if |left.items| != |right.items| then [["<length>"]] else [])
  {
    if |left.items| != |right.items| {
      assert LeadsTo(left, right, ["<length>"], Length(left.items), Length(right.items));
    }
    hide LeadsTo, Join, Before;
  }

  lemma ListLeads(left: Json, right: Json, steps: seq<string>, control: Json, shadow: Json)
    requires left.List? && right.List? && LeadsTo(left, right, steps, control, shadow)
    ensures (steps == ["<length>"] && |left.items| != |right.items|)
         || (steps != [] && exists i: nat :: i < |left.items| && i < |right.items| && steps[0] == Decimal(i))
  {
    if i :| 0 <= i < |left.items| && i < |right.items|
            && steps != [] && steps[0] == Decimal(i) && LeadsTo(left.items[i], right.items[i], steps[1..], control, shadow)
    {
      var k: nat := i;
      assert k < |left.items| && k < |right.items| && steps[0] == Decimal(k);
    }
  }

  lemma ListPlaces(left: Json, right: Json, path: seq<string>) returns (places: seq<seq<string>>)
    requires left.List? && right.List?
    ensures Lists(left, right, path, Diff(left, right, path), places) && AllListed(left, right, places)
    decreases left, 1, 0
  {
    var items := ItemPlaces(left, right, 0, path);
    var length := if |left.items| != |right.items| then [["<length>"]] else [];
    assert Diff(left, right, path) == LengthRow(left.items, right.items, path) + DiffItems(left, right, 0, path);
    LengthLists(left, right, path);
    hide LeadsTo, Lists, Before, Join, Diff, DiffItems, LengthRow, Decimal;
    forall p, q | p in length && q in items ensures Before(left, p, q) {
      var i: nat :| q[0] == Decimal(i);
      LengthBefore(left, i, q);
    }
    ListsAppend(left, right, path, LengthRow(left.items, right.items, path), length, DiffItems(left, right, 0, path), items);
    places := length + items;
    forall steps, control, shadow | LeadsTo(left, right, steps, control, shadow) ensures steps in places {
      ListLeads(left, right, steps, control, shadow);
    }
  }

  /**
   The report is a listing without repetition: its rows are about places that come
   one after the other in reading order, and every difference has its place among them.
   */
  lemma {:induction false} PlacesInOrder(left: Json, right: Json, path: seq<string>) returns (places: seq<seq<string>>)
    ensures Lists(left, right, path, Diff(left, right, path), places)
    ensures AllListed(left, right, places)
    decreases left, 1, 1
  {
    if SameType(left, right) && left.Dict? {
      var keys := Sorted(left.fields.Keys + right.fields.Keys);
      places := FieldPlaces(left, right, keys, path);
      hide LeadsTo, Lists;
      forall steps, control, shadow | LeadsTo(left, right, steps, control, shadow) ensures steps in places {
        DictLeads(left, right, steps, control, shadow);
      }
    } else if SameType(left, right) && left.List? {
      places := ListPlaces(left, right, path);
    } else {
      assert path + [] == path;
      places := if left == right then [] else [[]];
    }
  }
}
