/**
 The frozen comparator: UUIDs in string values become first-occurrence tokens,
 numbered by one table threaded through the whole walk.
 */
module UuidTokens {
  import opened TextOrder
  import opened Trees

  /** A UUID occurrence followed by the text up to the next one. */
  datatype Piece = Piece(uuid: string, text: string)

  /** A string split at its UUID occurrences. */
  datatype Segmented = Segmented(head: string, pieces: seq<Piece>)

  type Source<A> = Tree<Segmented, A>
  type Output<A> = Tree<string, A>

  const DERIVATIVE_HASH_KEYS: set<string> :=
    {"event_hash", "payload_hash", "previous_event_hash", "source_sample_hash", "state_hash"}

  const MARK := "<ADMIN_UUID_"

  function LowerChar(c: char): char {
    if 'A' <= c <= 'Z' then c - 'A' + 'a' else c
  }

  function Lower(text: string): string {
    seq(|text|, i requires 0 <= i < |text| => LowerChar(text[i]))
  }

  function Token(n: nat): string {
    MARK + Decimal(n) + ">"
  }

  // ---------------------------------------------------------- specification

  /** The identities met so far, in first-occurrence order; the token number is the position plus one. */
  function Note(uuid: string, seen: seq<string>): seq<string> {
    if uuid in seen then seen else seen + [uuid]
  }

  ghost function Position(uuid: string, seen: seq<string>): (i: nat)
    requires uuid in seen
    ensures i < |seen| && seen[i] == uuid
  {
    var i :| 0 <= i < |seen| && seen[i] == uuid;
    i
  }

  ghost function TokenOf(uuid: string, seen: seq<string>): string
    requires uuid in seen
  {
    Token(Position(uuid, seen) + 1)
  }

  ghost function FrozenPieces(pieces: seq<Piece>, seen: seq<string>): (string, seq<string>) {
    if pieces == [] then ("", seen)
    else
      var uuid := Lower(pieces[0].uuid);
      var noted := Note(uuid, seen);
      var rest := FrozenPieces(pieces[1..], noted);
      (TokenOf(uuid, noted) + (pieces[0].text + rest.0), rest.1)
  }

  ghost function Frozen<A>(value: Source<A>, seen: seq<string>): (Output<A>, seq<string>)
    decreases value, 1, 0
  {
    match value
    case Text(text) =>
      var rest := FrozenPieces(text.pieces, seen);
      (Text(text.head + rest.0), rest.1)
    case Scalar(atom) => (Scalar(atom), seen)
    case List(items) =>
      var r := FrozenItems(items, seen);
      (List(r.0), r.1)
    case Dict(fields) =>
      var r := FrozenFields(value, Sorted(fields.Keys - DERIVATIVE_HASH_KEYS), seen);
      (Dict(r.0), r.1)
  }

  ghost function FrozenItems<A>(items: seq<Source<A>>, seen: seq<string>): (r: (seq<Output<A>>, seq<string>))
    ensures |r.0| == |items|
    decreases items, 0, 0
  {
    if items == [] then ([], seen)
    else
      var first := Frozen(items[0], seen);
      var rest := FrozenItems(items[1..], first.1);
      ([first.0] + rest.0, rest.1)
  }

  ghost function FrozenFields<A>(value: Source<A>, keys: seq<string>, seen: seq<string>): (map<string, Output<A>>, seq<string>)
    requires value.Dict? && forall key | key in keys :: key in value.fields
    decreases value, 0, |keys|
  {
    if keys == [] then (map[], seen)
    else
      var first := Frozen(value.fields[keys[0]], seen);
      var rest := FrozenFields(value, keys[1..], first.1);
      (rest.0[keys[0] := first.0], rest.1)
  }

  /** The comparison value of a tree. */
  ghost function Canonical<A>(value: Source<A>): Output<A> {
    Frozen(value, []).0
  }

  // --------------------------------------------------------- the table walk

  ghost predicate Distinct(seen: seq<string>) {
    forall i, j | 0 <= i < j < |seen| :: seen[i] != seen[j]
  }

  /** The shared `identities` dictionary; `seen` records the order in which its keys were added. */
  class Identities {
    var table: map<string, string>
    ghost var seen: seq<string>

    /** The dictionary is injective and its tokens are numbered 1..n in first-occurrence order. */
    ghost predicate Valid()
      reads this
    {
      && Distinct(seen)
      && (forall uuid :: uuid in table <==> uuid in seen)
      && (forall i | 0 <= i < |seen| :: table[seen[i]] == Token(i + 1))
    }

    constructor ()
      ensures Valid() && seen == []
    {
      table, seen := map[], [];
    }

    /** The substitution callback: the token of one UUID occurrence. */
    method Replace(raw: string) returns (token: string)
      requires Valid()
      modifies this
      ensures Valid()
      ensures seen == Note(Lower(raw), old(seen))
      ensures token == TokenOf(Lower(raw), seen)
    {
      hide Token;
      var uuid := Lower(raw);
      if uuid !in table {
        SizeOfTable(table, seen);
        table := table[uuid := Token(|table| + 1)];
        seen := seen + [uuid];
      }
      assert seen[Position(uuid, seen)] == uuid;
      token := table[uuid];
    }

    method Substitute(pieces: seq<Piece>) returns (out: string)
      requires Valid()
      modifies this
      ensures Valid()
      ensures (out, seen) == FrozenPieces(pieces, old(seen))
    {
      if pieces == [] {
        out := "";
      } else {
        var token := Replace(pieces[0].uuid);
        var rest := Substitute(pieces[1..]);
        out := token + (pieces[0].text + rest);
      }
    }

    /** The recursive walk, updating the table in place. */
    method FrozenSemantic<A>(value: Source<A>) returns (out: Output<A>)
      requires Valid()
      modifies this
      ensures Valid()
      ensures (out, seen) == Frozen(value, old(seen))
      decreases value, 1, 0
    {
      match value {
        case Text(text) =>
          var replaced := Substitute(text.pieces);
          out := Text(text.head + replaced);
        case Scalar(atom) =>
          out := Scalar(atom);
        case List(items) =>
          var result := FreezeItems(items);
          out := List(result);
        case Dict(fields) =>
          // Dropping the derivative keys before or after sorting visits the same keys in the same order.
          var keys := SortNames(fields.Keys - DERIVATIVE_HASH_KEYS);
          var result := FreezeFields(value, keys);
          out := Dict(result);
      }
    }

    method FreezeItems<A>(items: seq<Source<A>>) returns (out: seq<Output<A>>)
      requires Valid()
      modifies this
      ensures Valid()
      ensures (out, seen) == FrozenItems(items, old(seen))
      decreases items, 0, 0
    {
      if items == [] {
        out := [];
      } else {
        var first := FrozenSemantic(items[0]);
        var rest := FreezeItems(items[1..]);
        out := [first] + rest;
      }
    }

    method FreezeFields<A>(value: Source<A>, keys: seq<string>) returns (out: map<string, Output<A>>)
      requires Valid()
      requires value.Dict? && forall key | key in keys :: key in value.fields
      modifies this
      ensures Valid()
      ensures (out, seen) == FrozenFields(value, keys, old(seen))
      decreases value, 0, |keys|
    {
      if keys == [] {
        out := map[];
      } else {
        var first := FrozenSemantic(value.fields[keys[0]]);
        var rest := FreezeFields(value, keys[1..]);
        out := rest[keys[0] := first];
      }
    }
  }

  /** A top-level comparison starts from an empty table. */
  method CanonicalForm<A>(value: Source<A>) returns (out: Output<A>)
    ensures out == Canonical(value)
  {
    var identities := new Identities();
    out := identities.FrozenSemantic(value);
  }

  lemma SizeOfTable(table: map<string, string>, seen: seq<string>)
    requires Distinct(seen) && forall uuid :: uuid in table <==> uuid in seen
    ensures |table| == |seen|
  {
    assert table.Keys == set uuid | uuid in seen;
    SizeOfListing(seen);
    assert |table| == |table.Keys|;
  }

  lemma {:induction false} SizeOfListing(seen: seq<string>)
    requires Distinct(seen)
    ensures |set uuid | uuid in seen| == |seen|
  {
    if seen != [] {
      var init, last := seen[..|seen| - 1], seen[|seen| - 1];
      SizeOfListing(init);
      assert (set uuid | uuid in seen) == (set uuid | uuid in init) + {last};
    }
  }
}
