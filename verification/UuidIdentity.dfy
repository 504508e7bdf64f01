/**
 Which UUID occurrences are one identity: those that agree up to the case of ASCII
 letters, and what the finished table of a walk does to each occurrence.
 */
module UuidIdentity {
  import opened TextOrder
  import opened Trees
  import opened UuidAlpha
  import opened UuidTokens

  /** The upper and the lower case of one ASCII letter. */
  predicate LetterPair(upper: char, lower: char) {
    'A' <= upper <= 'Z' && 'a' <= lower <= 'z' && lower - 'a' == upper - 'A'
  }

  predicate SameLetter(c: char, d: char) {
    c == d || LetterPair(c, d) || LetterPair(d, c)
  }

  /** The same text but for the case of ASCII letters. */
  ghost predicate SameUuid(u: string, v: string) {
    |u| == |v| && forall i | 0 <= i < |u| :: SameLetter(u[i], v[i])
  }

  lemma LetterLowers(c: char, d: char)
    ensures LowerChar(c) == LowerChar(d) <==> SameLetter(c, d)
    ensures !('A' <= c <= 'Z') ==> LowerChar(c) == c
    ensures 'A' <= c <= 'Z' ==> LetterPair(c, LowerChar(c))
  {}

  /** Lower-casing identifies exactly the texts that agree up to letter case. */
  lemma LowerExactly(u: string, v: string)
    ensures Lower(u) == Lower(v) <==> SameUuid(u, v)
  {
    hide LowerChar, SameLetter;
    forall i | 0 <= i < |u| && i < |v| ensures Lower(u)[i] == Lower(v)[i] <==> SameLetter(u[i], v[i]) {
      LetterLowers(u[i], v[i]);
    }
    assert |Lower(u)| == |u| && |Lower(v)| == |v|;
  }

  /** A text without upper-case ASCII letters is its own lower case. */
  lemma LowerOfLower(u: string)
    requires forall c | c in u :: !('A' <= c <= 'Z')
    ensures Lower(u) == u
  {
    forall i | 0 <= i < |u| ensures Lower(u)[i] == u[i] {
      assert u[i] in u;
      LetterLowers(u[i], u[i]);
    }
  }

  /** Two occurrences with a place in the table get the same token exactly when they are the same UUID. */
  lemma SameTokenExactly(u: string, v: string, table: seq<string>)
    requires Distinct(table) && Lower(u) in table && Lower(v) in table
    ensures TokenOf(Lower(u), table) == TokenOf(Lower(v), table) <==> SameUuid(u, v)
  {
    LowerExactly(u, v);
    hide Lower, SameUuid, Token;
    var i, j := Position(Lower(u), table), Position(Lower(v), table);
    if TokenOf(Lower(u), table) == TokenOf(Lower(v), table) {
      assert Token(i + 1) + "" == Token(j + 1) + "";
      TokenReadsBack(i + 1, "", j + 1, "");
    }
  }

  // --------------------------------------- the finished table says it all

  /** Every UUID of these pieces has a place in the table. */
  ghost predicate PiecesPlaced(pieces: seq<Piece>, table: seq<string>) {
    forall i | 0 <= i < |pieces| :: Lower(pieces[i].uuid) in table
  }

  ghost predicate Placed<A>(t: Source<A>, table: seq<string>)
    decreases t
  {
    match t
    case Text(text) => PiecesPlaced(text.pieces, table)
    case Scalar(_) => true
    case List(items) => forall i | 0 <= i < |items| :: Placed(items[i], table)
    case Dict(fields) => forall key | key in fields && key !in DERIVATIVE_HASH_KEYS :: Placed(fields[key], table)
  }

  ghost function WrittenPieces(pieces: seq<Piece>, table: seq<string>): string
    requires PiecesPlaced(pieces, table)
  {
    if pieces == [] then "" else TokenOf(Lower(pieces[0].uuid), table) + (pieces[0].text + WrittenPieces(pieces[1..], table))
  }

  /** The tree with each UUID replaced by its token in one fixed table, and the hash keys dropped. */
  ghost function Written<A>(t: Source<A>, table: seq<string>): Output<A>
    requires Placed(t, table)
    decreases t
  {
    match t
    case Text(text) => Text(text.head + WrittenPieces(text.pieces, table))
    case Scalar(atom) => Scalar(atom)
    case List(items) => List(seq(|items|, i requires 0 <= i < |items| => Written(items[i], table)))
    case Dict(fields) => Dict(map key | key in fields && key !in DERIVATIVE_HASH_KEYS :: Written(fields[key], table))
  }

  lemma TokenStays(x: string, s: seq<string>, s': seq<string>)
    requires s <= s' && Distinct(s') && x in s
    ensures x in s' && TokenOf(x, s') == TokenOf(x, s)
  {}

  lemma NoteGrows(x: string, s: seq<string>)
    requires Distinct(s)
    ensures s <= Note(x, s) && Distinct(Note(x, s)) && x in Note(x, s)
  {}

  lemma {:induction false} PiecesGrow(pieces: seq<Piece>, s: seq<string>)
    requires Distinct(s)
    ensures s <= FrozenPieces(pieces, s).1 && Distinct(FrozenPieces(pieces, s).1) && PiecesPlaced(pieces, FrozenPieces(pieces, s).1)
  {
    hide TokenOf, Distinct;
    if pieces != [] {
      var uuid := Lower(pieces[0].uuid);
      NoteGrows(uuid, s);
      hide Note, Lower;
      PiecesGrow(pieces[1..], Note(uuid, s));
    }
  }

  lemma {:induction false} PiecesWritten(pieces: seq<Piece>, s: seq<string>, table: seq<string>)
    requires Distinct(s) && Distinct(table) && FrozenPieces(pieces, s).1 <= table
    ensures PiecesPlaced(pieces, table) && FrozenPieces(pieces, s).0 == WrittenPieces(pieces, table)
  {
    PiecesGrow(pieces, s);
    if pieces != [] {
      var uuid := Lower(pieces[0].uuid);
      var noted := Note(uuid, s);
      NoteGrows(uuid, s);
      PiecesGrow(pieces[1..], noted);
      hide Note, Lower, TokenOf;
      TokenStays(uuid, noted, table);
      PiecesWritten(pieces[1..], noted, table);
    }
  }

  lemma {:induction false} WalkGrows<A>(t: Source<A>, s: seq<string>)
    requires Distinct(s)
    ensures s <= Frozen(t, s).1 && Distinct(Frozen(t, s).1)
    decreases t, 1, 0
  {
    hide Distinct;
    match t {
      case Text(text) => PiecesGrow(text.pieces, s);
      case Scalar(atom) =>
      case List(items) => ItemsGrow(items, s);
      case Dict(fields) => FieldsGrow(t, Sorted(fields.Keys - DERIVATIVE_HASH_KEYS), s);
    }
  }

  lemma {:induction false} ItemsGrow<A>(items: seq<Source<A>>, s: seq<string>)
    requires Distinct(s)
    ensures s <= FrozenItems(items, s).1 && Distinct(FrozenItems(items, s).1)
    decreases items, 0, 0
  {
    hide Distinct;
    if items != [] {
      WalkGrows(items[0], s);
      ItemsGrow(items[1..], Frozen(items[0], s).1);
    }
  }

  lemma {:induction false} FieldsGrow<A>(t: Source<A>, keys: seq<string>, s: seq<string>)
    requires Distinct(s) && t.Dict? && forall key | key in keys :: key in t.fields
    ensures s <= FrozenFields(t, keys, s).1 && Distinct(FrozenFields(t, keys, s).1)
    decreases t, 0, |keys|
  {
    hide Distinct;
    if keys != [] {
      WalkGrows(t.fields[keys[0]], s);
      FieldsGrow(t, keys[1..], Frozen(t.fields[keys[0]], s).1);
    }
  }

  /** The walk writes every UUID by its place in any table that continues the one it leaves. */
  lemma {:induction false} WalkWritten<A>(t: Source<A>, s: seq<string>, table: seq<string>)
    requires Distinct(s) && Distinct(table) && Frozen(t, s).1 <= table
    ensures Placed(t, table) && Frozen(t, s).0 == Written(t, table)
    decreases t, 1, 0
  {
    hide Distinct, WrittenPieces, FrozenPieces, PiecesPlaced;
    match t {
      case Text(text) => PiecesWritten(text.pieces, s, table);
      case Scalar(atom) =>
      case List(items) => ItemsWritten(items, s, table);
      case Dict(fields) =>
        var keys := Sorted(fields.Keys - DERIVATIVE_HASH_KEYS);
        FieldsWritten(t, keys, s, table);
        assert forall key :: key in keys <==> key in fields && key !in DERIVATIVE_HASH_KEYS;
        assert FrozenFields(t, keys, s).0 == Written(t, table).fields;
    }
  }

  lemma {:induction false} ItemsWritten<A>(items: seq<Source<A>>, s: seq<string>, table: seq<string>)
    requires Distinct(s) && Distinct(table) && FrozenItems(items, s).1 <= table
    ensures forall i | 0 <= i < |items| :: Placed(items[i], table) && FrozenItems(items, s).0[i] == Written(items[i], table)
    decreases items, 0, 0
  {
    hide Distinct, Written, Placed, Frozen;
    if items != [] {
      var s' := Frozen(items[0], s).1;
      WalkGrows(items[0], s);
      ItemsGrow(items[1..], s');
      WalkWritten(items[0], s, table);
      ItemsWritten(items[1..], s', table);
      forall i | 0 <= i < |items|
        ensures Placed(items[i], table) && FrozenItems(items, s).0[i] == Written(items[i], table)
      {
        if i > 0 {
          assert items[i] == items[1..][i - 1];
        }
      }
    }
  }

  lemma {:induction false} FieldsWritten<A>(t: Source<A>, keys: seq<string>, s: seq<string>, table: seq<string>)
    requires Distinct(s) && Distinct(table) && t.Dict? && forall key | key in keys :: key in t.fields
    requires FrozenFields(t, keys, s).1 <= table && StrictlySorted(keys)
    ensures forall key :: key in FrozenFields(t, keys, s).0 <==> key in keys
    ensures forall key | key in keys :: Placed(t.fields[key], table) && FrozenFields(t, keys, s).0[key] == Written(t.fields[key], table)
    decreases t, 0, |keys|
  {
    hide Distinct, Written, Placed, Frozen, Lt;
    if keys != [] {
      var key, rest := keys[0], keys[1..];
      var s' := Frozen(t.fields[key], s).1;
      assert key !in rest by {
        if key in rest {
          var i :| 0 <= i < |rest| && rest[i] == key;
          assert Lt(keys[0], keys[i + 1]);
          NotBelowItself(key);
        }
      }
      WalkGrows(t.fields[key], s);
      FieldsGrow(t, rest, s');
      WalkWritten(t.fields[key], s, table);
      FieldsWritten(t, rest, s', table);
    }
  }

  lemma NotBelowItself(key: string)
    ensures !Lt(key, key)
  {}

  /**
   The comparison value is the tree written with one table: the finished one, whose
   tokens, by `SameTokenExactly`, tell two occurrences apart exactly when they are
   different UUIDs.
   */
  lemma CanonicalIsWritten<A>(t: Source<A>)
    ensures var table := Frozen(t, []).1;
            Distinct(table) && Placed(t, table) && Canonical(t) == Written(t, table)
  {
    WalkGrows(t, []);
    WalkWritten(t, [], Frozen(t, []).1);
  }

  /** Two occurrences under two names of one record compare as one identity exactly when they are the same UUID. */
  lemma RelationKeptExactly<A>(first: string, second: string, u: string, v: string)
    requires first != second && first !in DERIVATIVE_HASH_KEYS && second !in DERIVATIVE_HASH_KEYS
    ensures var t: Source<A> := Dict(map[first := Text(Segmented("", [Piece(u, "")])), second := Text(Segmented("", [Piece(v, "")]))]);
            && Canonical(t).Dict? && first in Canonical(t).fields && second in Canonical(t).fields
            && (Canonical(t).fields[first] == Canonical(t).fields[second] <==> SameUuid(u, v))
  {
    var a: Source<A>, b: Source<A> := Text(Segmented("", [Piece(u, "")])), Text(Segmented("", [Piece(v, "")]));
    var t: Source<A> := Dict(map[first := a, second := b]);
    CanonicalIsWritten(t);
    var table := Frozen(t, []).1;
    hide Frozen, Canonical, Lower, TokenOf, SameUuid;
    assert t.fields[first] == a && t.fields[second] == b;
    assert Placed(a, table) && Placed(b, table);
    assert [Piece(u, "")][0].uuid == u && [Piece(v, "")][0].uuid == v;
    SameTokenExactly(u, v, table);
    OneWritten(u, table);
    OneWritten(v, table);
    assert Written(t, table).fields[first] == Written(a, table) && Written(t, table).fields[second] == Written(b, table);
  }

  lemma OneFrozen<A>(u: string, s: seq<string>)
    ensures Frozen(Occurrence<A>(u), s) == (Text(TokenOf(Lower(u), Note(Lower(u), s))), Note(Lower(u), s))
  {
    assert [Piece(u, "")][1..] == [];
    var token := TokenOf(Lower(u), Note(Lower(u), s));
    assert FrozenPieces([Piece(u, "")], s) == (token + ("" + ""), Note(Lower(u), s));
    assert "" + (token + ("" + "")) == token;
  }

  lemma TwoNumbers(u: string, v: string)
    ensures var table := Note(Lower(u), []);
            && table == [Lower(u)] && TokenOf(Lower(u), table) == "<ADMIN_UUID_1>"
            && TokenOf(Lower(v), Note(Lower(v), table)) == if SameUuid(u, v) then "<ADMIN_UUID_1>" else "<ADMIN_UUID_2>"
  {
    LowerExactly(u, v);
    hide Lower, SameUuid;
    assert Token(1) == "<ADMIN_UUID_1>" && Token(2) == "<ADMIN_UUID_2>";
  }

  /** A text that is one UUID. */
  function Occurrence<A>(u: string): Source<A> {
    Text(Segmented("", [Piece(u, "")]))
  }

  /** The numbers of the first and of the second occurrence. */
  ghost function SecondToken(u: string, v: string): string {
    if SameUuid(u, v) then "<ADMIN_UUID_1>" else "<ADMIN_UUID_2>"
  }

  lemma TwoFrozen<A>(u: string, v: string) returns (s: seq<string>, s': seq<string>)
    ensures Frozen(Occurrence<A>(u), []) == (Text("<ADMIN_UUID_1>"), s)
    ensures Frozen(Occurrence<A>(v), s) == (Text(SecondToken(u, v)), s')
  {
    s, s' := Note(Lower(u), []), Note(Lower(v), Note(Lower(u), []));
    OneFrozen<A>(u, []);
    OneFrozen<A>(v, s);
    TwoNumbers(u, v);
    hide Lower, SameUuid, TokenOf, Note, FrozenPieces, Frozen;
  }

  /** Tokens number the identities in reading order: items by position. */
  lemma ItemsNumbered<A>(u: string, v: string)
    ensures Canonical(List([Occurrence<A>(u), Occurrence<A>(v)])) == List([Text("<ADMIN_UUID_1>"), Text(SecondToken(u, v))])
  {
    var a, b := Occurrence<A>(u), Occurrence<A>(v);
    var s, s' := TwoFrozen<A>(u, v);
    hide SecondToken, Occurrence;
    assert [a, b][1..] == [b] && [b][1..] == [];
    var none: seq<Source<A>> := [];
    assert FrozenItems(none, s') == ([], s');
    assert FrozenItems([b], s).0 == [Text(SecondToken(u, v))];
    assert FrozenItems([a, b], []).0 == [Text("<ADMIN_UUID_1>"), Text(SecondToken(u, v))];
  }

  /** Fields by name. */
  lemma FieldsNumbered<A>(first: string, second: string, u: string, v: string)
    requires Lt(first, second) && first !in DERIVATIVE_HASH_KEYS && second !in DERIVATIVE_HASH_KEYS
    ensures Canonical(Dict(map[first := Occurrence<A>(u), second := Occurrence<A>(v)]))
         == Dict(map[first := Text("<ADMIN_UUID_1>"), second := Text(SecondToken(u, v))])
  {
    var s, s' := TwoFrozen<A>(u, v);
    var t: Source<A> := Dict(map[first := Occurrence<A>(u), second := Occurrence<A>(v)]);
    TwoKeys(first, second);
    NotBelowItself(first);
    assert t.fields.Keys - DERIVATIVE_HASH_KEYS == {first, second};
    hide SecondToken, Occurrence, Lt;
    assert [first, second][1..] == [second] && [second][1..] == [];
    assert FrozenFields(t, [], s') == (map[], s');
    assert FrozenFields(t, [second], s).0 == map[second := Text(SecondToken(u, v))];
    assert FrozenFields(t, [first, second], []).0 == map[second := Text(SecondToken(u, v))][first := Text("<ADMIN_UUID_1>")];
  }

  lemma TwoKeys(first: string, second: string)
    requires Lt(first, second)
    ensures Sorted({first, second}) == [first, second]
  {
    SortedUnique([first, second], Sorted({first, second}));
  }

  lemma OneWritten(u: string, table: seq<string>)
    requires Lower(u) in table
    ensures PiecesPlaced([Piece(u, "")], table) && "" + WrittenPieces([Piece(u, "")], table) == TokenOf(Lower(u), table)
  {
    hide Lower, TokenOf;
    assert [Piece(u, "")][1..] == [];
    assert WrittenPieces([], table) == "";
  }
}
