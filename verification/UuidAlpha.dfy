/**
 What the frozen comparator decides: equal comparison values mean that some
 injective renaming of UUIDs in values carries one tree to the other.
 */
module UuidAlpha {
  import opened TextOrder
  import opened Trees
  import opened UuidTokens

  type Renaming = map<string, string>

  ghost predicate Injective(f: Renaming) {
    forall x, y | x in f && y in f && f[x] == f[y] :: x == y
  }

  ghost predicate CarriesPieces(p: seq<Piece>, q: seq<Piece>, f: Renaming) {
    |p| == |q| && forall i | 0 <= i < |p| ::
      p[i].text == q[i].text && Lower(p[i].uuid) in f && f[Lower(p[i].uuid)] == Lower(q[i].uuid)
  }

  /** `f`, applied to lower-cased UUIDs in values, turns `t` into `u` once the derivative keys are dropped. */
  ghost predicate Carries<A(!new)>(t: Source<A>, u: Source<A>, f: Renaming)
    decreases t
  {
    match t
    case Text(text) => u.Text? && text.head == u.text.head && CarriesPieces(text.pieces, u.text.pieces, f)
    case Scalar(atom) => u == t
    case List(items) => u.List? && |items| == |u.items| && forall i | 0 <= i < |items| :: Carries(items[i], u.items[i], f)
    case Dict(fields) =>
      && u.Dict?
      && fields.Keys - DERIVATIVE_HASH_KEYS == u.fields.Keys - DERIVATIVE_HASH_KEYS
      && forall key | key in fields.Keys - DERIVATIVE_HASH_KEYS :: key in u.fields && Carries(fields[key], u.fields[key], f)
  }

  ghost predicate AlphaEquivalent<A(!new)>(t: Source<A>, u: Source<A>) {
    exists f: Renaming :: Injective(f) && Carries(t, u, f)
  }

  // ------------------------------------------ soundness: renaming is ignored

  /** Two walks in step: the identities met are matched, position by position, by `f`. */
  ghost predicate Matched(s: seq<string>, r: seq<string>, f: Renaming) {
    && |s| == |r| && Distinct(s) && Distinct(r)
    && forall i | 0 <= i < |s| :: s[i] in f && f[s[i]] == r[i]
  }

  lemma NoteMatched(x: string, s: seq<string>, r: seq<string>, f: Renaming)
    requires Injective(f) && Matched(s, r, f) && x in f
    ensures Matched(Note(x, s), Note(f[x], r), f)
    ensures Position(x, Note(x, s)) == Position(f[x], Note(f[x], r))
  {}

  lemma {:induction false} PiecesIgnoreRenaming(p: seq<Piece>, q: seq<Piece>, s: seq<string>, r: seq<string>, f: Renaming)
    requires Injective(f) && Matched(s, r, f) && CarriesPieces(p, q, f)
    ensures FrozenPieces(p, s).0 == FrozenPieces(q, r).0
    ensures Matched(FrozenPieces(p, s).1, FrozenPieces(q, r).1, f)
  {
    hide Token, Matched, Injective, Note;
    if p != [] {
      var x := Lower(p[0].uuid);
      NoteMatched(x, s, r, f);
      PiecesIgnoreRenaming(p[1..], q[1..], Note(x, s), Note(f[x], r), f);
    }
  }

  lemma {:induction false} IgnoresRenaming<A(!new)>(t: Source<A>, u: Source<A>, s: seq<string>, r: seq<string>, f: Renaming)
    requires Injective(f) && Matched(s, r, f) && Carries(t, u, f)
    ensures Frozen(t, s).0 == Frozen(u, r).0
    ensures Matched(Frozen(t, s).1, Frozen(u, r).1, f)
    decreases t, 1, 0
  {
    hide Matched, Injective;
    match t {
      case Text(text) => PiecesIgnoreRenaming(text.pieces, u.text.pieces, s, r, f);
      case Scalar(atom) =>
      case List(items) => ItemsIgnoreRenaming(items, u.items, s, r, f);
      case Dict(fields) => FieldsIgnoreRenaming(t, u, Sorted(fields.Keys - DERIVATIVE_HASH_KEYS), s, r, f);
    }
  }

  lemma {:induction false} ItemsIgnoreRenaming<A(!new)>(
    t: seq<Source<A>>, u: seq<Source<A>>, s: seq<string>, r: seq<string>, f: Renaming)
    requires Injective(f) && Matched(s, r, f)
    requires |t| == |u| && forall i | 0 <= i < |t| :: Carries(t[i], u[i], f)
    ensures FrozenItems(t, s).0 == FrozenItems(u, r).0
    ensures Matched(FrozenItems(t, s).1, FrozenItems(u, r).1, f)
    decreases t, 0, 0
  {
    hide Matched, Injective, Carries;
    if t != [] {
      IgnoresRenaming(t[0], u[0], s, r, f);
      ItemsIgnoreRenaming(t[1..], u[1..], Frozen(t[0], s).1, Frozen(u[0], r).1, f);
    }
  }

  lemma {:induction false} FieldsIgnoreRenaming<A(!new)>(
    t: Source<A>, u: Source<A>, keys: seq<string>, s: seq<string>, r: seq<string>, f: Renaming)
    requires Injective(f) && Matched(s, r, f)
    requires t.Dict? && u.Dict? && forall key | key in keys :: key in t.fields && key in u.fields && Carries(t.fields[key], u.fields[key], f)
    ensures FrozenFields(t, keys, s).0 == FrozenFields(u, keys, r).0
    ensures Matched(FrozenFields(t, keys, s).1, FrozenFields(u, keys, r).1, f)
    decreases t, 0, |keys|
  {
    hide Matched, Injective, Carries;
    if keys != [] {
      var key := keys[0];
      IgnoresRenaming(t.fields[key], u.fields[key], s, r, f);
      FieldsIgnoreRenaming(t, u, keys[1..], Frozen(t.fields[key], s).1, Frozen(u.fields[key], r).1, f);
    }
  }

  // ------------------------------- completeness: only renaming is ignored

  ghost predicate TokenAt(text: string, i: nat, n: nat) {
    i + |Token(n)| <= |text| && text[i..i + |Token(n)|] == Token(n)
  }

  /** The text holds no token the walk could have written. */
  ghost predicate TokenFree(text: string) {
    forall i: nat, n: nat | n >= 1 :: !TokenAt(text, i, n)
  }

  ghost predicate LookAlikeFree<A(!new)>(t: Source<A>)
    decreases t
  {
    match t
    case Text(text) => TokenFree(text.head) && forall i | 0 <= i < |text.pieces| :: TokenFree(text.pieces[i].text)
    case Scalar(atom) => true
    case List(items) => forall i | 0 <= i < |items| :: LookAlikeFree(items[i])
    case Dict(fields) => forall key | key in fields.Keys - DERIVATIVE_HASH_KEYS :: LookAlikeFree(fields[key])
  }

  /** A token opens with `<` and holds no other. */
  lemma TokenOpensOnce(n: nat)
    ensures |Token(n)| > |MARK| && Token(n)[0] == '<' && forall i | 1 <= i < |Token(n)| :: Token(n)[i] != '<'
  {
    var digits, token := Decimal(n), Token(n);
    assert |token| == |MARK| + |digits| + 1 && |MARK| == 12;
    forall i | 1 <= i < |token| ensures token[i] != '<' {
      if |MARK| <= i < |token| - 1 {
        assert token[i] == digits[i - |MARK|] && token[i] in DIGITS;
      }
    }
  }

  /** Empty, or a token the walk writes and anything after it. */
  ghost predicate OpensWithToken(p: string) {
    p == "" || exists n: nat, rest: string :: n >= 1 && p == Token(n) + rest
  }

  /** Token-free text before a token, or before the end, can be read off in only one way. */
  lemma TextEndsAtToken(x: string, p: string, y: string, q: string)
    requires TokenFree(y) && OpensWithToken(p) && OpensWithToken(q)
    requires x + p == y + q
    ensures |x| >= |y|
  {
    var whole := x + p;
    if p != "" {
      var n: nat, rest: string :| n >= 1 && p == Token(n) + rest;
      var token := Token(n);
      TokenOpensOnce(n);
      assert whole[|x|..|x| + |token|] == token;
      assert |x| + |token| <= |y| ==> y[|x|..|x| + |token|] == whole[|x|..|x| + |token|] && TokenAt(y, |x|, n);
      assert forall j | 1 <= j < |token| :: whole[|x| + j] == token[j] != '<';
      if q != "" {
        var m: nat, more: string :| m >= 1 && q == Token(m) + more;
        TokenOpensOnce(m);
        assert whole[|y|] == q[0] == '<';
      }
    }
  }

  lemma DigitsEndAtClose(a: string, x: string, b: string, y: string)
    requires forall c | c in a :: c in DIGITS
    requires forall c | c in b :: c in DIGITS
    requires a + ">" + x == b + ">" + y
    ensures a == b && x == y
  {
    var whole := a + ">" + x;
    assert whole[|a|] == '>' && whole[|b|] == '>';
    assert forall i | 0 <= i < |a| :: whole[i] == a[i] && whole[i] in DIGITS;
    assert forall i | 0 <= i < |b| :: whole[i] == b[i] && whole[i] in DIGITS;
    assert '>' !in DIGITS;
    assert whole[..|a|] == a && whole[..|b|] == b;
    assert whole[|a| + 1..] == x && whole[|b| + 1..] == y;
  }

  lemma TokenReadsBack(m: nat, x: string, n: nat, y: string)
    requires Token(m) + x == Token(n) + y
    ensures m == n && x == y
  {
    var a, b := Decimal(m), Decimal(n);
    assert Token(m) + x == MARK + (a + ">" + x);
    assert Token(n) + y == MARK + (b + ">" + y);
    assert (MARK + (a + ">" + x))[|MARK|..] == a + ">" + x;
    assert (MARK + (b + ">" + y))[|MARK|..] == b + ">" + y;
    DigitsEndAtClose(a, x, b, y);
    DecimalInjective(m, n);
  }

  /** The renaming two equally long identity lists stand for. */
  ghost function Pairing(s: seq<string>, r: seq<string>): Renaming
    requires |s| == |r|
  {
    map x | x in s :: r[Position(x, s)]
  }

  ghost predicate InStep(s: seq<string>, r: seq<string>) {
    |s| == |r| && Distinct(s) && Distinct(r)
  }

  lemma PairingInjective(s: seq<string>, r: seq<string>)
    requires InStep(s, r)
    ensures Injective(Pairing(s, r))
  {}

  /** Walks only append, so an earlier pairing is part of a later one. */
  ghost predicate Extends(s: seq<string>, r: seq<string>, s': seq<string>, r': seq<string>) {
    InStep(s, r) && InStep(s', r') && s <= s' && r <= r'
  }

  lemma PairingGrows(s: seq<string>, r: seq<string>, s': seq<string>, r': seq<string>, x: string)
    requires Extends(s, r, s', r') && x in s
    ensures x in s' && Pairing(s', r')[x] == Pairing(s, r)[x]
  {}

  lemma NoteReadsBack(x: string, y: string, s: seq<string>, r: seq<string>)
    requires InStep(s, r)
    requires Position(x, Note(x, s)) == Position(y, Note(y, r))
    ensures Extends(s, r, Note(x, s), Note(y, r))
    ensures x in Note(x, s) && Pairing(Note(x, s), Note(y, r))[x] == y
  {}

  lemma PiecesCarryLonger(p: seq<Piece>, q: seq<Piece>, s: seq<string>, r: seq<string>, s': seq<string>, r': seq<string>)
    requires Extends(s, r, s', r') && CarriesPieces(p, q, Pairing(s, r))
    ensures CarriesPieces(p, q, Pairing(s', r'))
  {}

  lemma {:induction false} CarriesLonger<A(!new)>(
    t: Source<A>, u: Source<A>, s: seq<string>, r: seq<string>, s': seq<string>, r': seq<string>)
    requires Extends(s, r, s', r') && Carries(t, u, Pairing(s, r))
    ensures Carries(t, u, Pairing(s', r'))
    decreases t
  {
    hide Pairing;
    match t {
      case Text(text) => PiecesCarryLonger(text.pieces, u.text.pieces, s, r, s', r');
      case Scalar(atom) =>
      case List(items) =>
        forall i | 0 <= i < |items| ensures Carries(items[i], u.items[i], Pairing(s', r')) {
          CarriesLonger(items[i], u.items[i], s, r, s', r');
        }
      case Dict(fields) =>
        forall key | key in fields.Keys - DERIVATIVE_HASH_KEYS
          ensures key in u.fields && Carries(fields[key], u.fields[key], Pairing(s', r'))
        {
          assert key in u.fields.Keys - DERIVATIVE_HASH_KEYS;
          CarriesLonger(fields[key], u.fields[key], s, r, s', r');
        }
    }
  }

  lemma ExtendsTransitive(s: seq<string>, r: seq<string>, s': seq<string>, r': seq<string>, s'': seq<string>, r'': seq<string>)
    requires Extends(s, r, s', r') && Extends(s', r', s'', r'')
    ensures Extends(s, r, s'', r'')
  {}

  lemma PiecesOpenWithToken(p: seq<Piece>, s: seq<string>)
    ensures OpensWithToken(FrozenPieces(p, s).0)
    ensures FrozenPieces(p, s).0 == "" <==> p == []
  {
    if p != [] {
      var uuid := Lower(p[0].uuid);
      var noted := Note(uuid, s);
      var n, rest := Position(uuid, noted) + 1, p[0].text + FrozenPieces(p[1..], noted).0;
      assert FrozenPieces(p, s).0 == Token(n) + rest;
    }
  }

  ghost predicate TextsTokenFree(p: seq<Piece>) {
    forall i | 0 <= i < |p| :: TokenFree(p[i].text)
  }

  lemma PieceReadsBack(p: seq<Piece>, q: seq<Piece>, s: seq<string>, r: seq<string>)
    requires p != [] && q != [] && TextsTokenFree(p) && TextsTokenFree(q)
    requires FrozenPieces(p, s).0 == FrozenPieces(q, r).0
    ensures var x, y := Lower(p[0].uuid), Lower(q[0].uuid);
            && Position(x, Note(x, s)) == Position(y, Note(y, r))
            && p[0].text == q[0].text
            && FrozenPieces(p[1..], Note(x, s)).0 == FrozenPieces(q[1..], Note(y, r)).0
  {
    hide Token, TokenFree;
    var x, y := Lower(p[0].uuid), Lower(q[0].uuid);
    var s', r' := Note(x, s), Note(y, r);
    var pRest, qRest := FrozenPieces(p[1..], s').0, FrozenPieces(q[1..], r').0;
    TokenReadsBack(Position(x, s') + 1, p[0].text + pRest, Position(y, r') + 1, q[0].text + qRest);
    TextReadsBack(p[0].text, p[1..], s', q[0].text, q[1..], r');
  }

  lemma {:induction false} PiecesReadBack(p: seq<Piece>, q: seq<Piece>, s: seq<string>, r: seq<string>)
    requires InStep(s, r) && TextsTokenFree(p) && TextsTokenFree(q)
    requires FrozenPieces(p, s).0 == FrozenPieces(q, r).0
    ensures Extends(s, r, FrozenPieces(p, s).1, FrozenPieces(q, r).1)
    ensures CarriesPieces(p, q, Pairing(FrozenPieces(p, s).1, FrozenPieces(q, r).1))
  {
    PiecesOpenWithToken(p, s);
    PiecesOpenWithToken(q, r);
    if p != [] {
      PieceReadsBack(p, q, s, r);
      var x, y := Lower(p[0].uuid), Lower(q[0].uuid);
      var s', r' := Note(x, s), Note(y, r);
      NoteReadsBack(x, y, s, r);
      PiecesReadBack(p[1..], q[1..], s', r');
      hide Note, InStep, Pairing, TokenFree, TokenOf, Lower, CarriesPieces;
      var s'', r'' := FrozenPieces(p[1..], s').1, FrozenPieces(q[1..], r').1;
      ExtendsTransitive(s, r, s', r', s'', r'');
      PairingGrows(s', r', s'', r'', x);
      CarriesCons(p, q, Pairing(s'', r''));
    }
  }

  lemma CarriesCons(p: seq<Piece>, q: seq<Piece>, f: Renaming)
    requires p != [] && q != [] && p[0].text == q[0].text
    requires Lower(p[0].uuid) in f && f[Lower(p[0].uuid)] == Lower(q[0].uuid)
    requires CarriesPieces(p[1..], q[1..], f)
    ensures CarriesPieces(p, q, f)
  {}

  lemma TextReadsBack(x: string, p: seq<Piece>, s: seq<string>, y: string, q: seq<Piece>, r: seq<string>)
    requires TokenFree(x) && TokenFree(y)
    requires x + FrozenPieces(p, s).0 == y + FrozenPieces(q, r).0
    ensures x == y && FrozenPieces(p, s).0 == FrozenPieces(q, r).0
  {
    PiecesOpenWithToken(p, s);
    PiecesOpenWithToken(q, r);
    var a, b := FrozenPieces(p, s).0, FrozenPieces(q, r).0;
    TextEndsAtToken(x, a, y, b);
    TextEndsAtToken(y, b, x, a);
    assert (x + a)[..|x|] == x && (y + b)[..|y|] == y;
    assert (x + a)[|x|..] == a && (y + b)[|y|..] == b;
  }

  lemma {:induction false} ReadsBack<A(!new)>(t: Source<A>, u: Source<A>, s: seq<string>, r: seq<string>)
    requires InStep(s, r) && LookAlikeFree(t) && LookAlikeFree(u)
    requires Frozen(t, s).0 == Frozen(u, r).0
    ensures Extends(s, r, Frozen(t, s).1, Frozen(u, r).1)
    ensures Carries(t, u, Pairing(Frozen(t, s).1, Frozen(u, r).1))
    decreases t, 1, 0
  {
    hide TokenFree, Pairing;
    match t {
      case Text(text) =>
        TextReadsBack(text.head, text.pieces, s, u.text.head, u.text.pieces, r);
        PiecesReadBack(text.pieces, u.text.pieces, s, r);
      case Scalar(atom) =>
      case List(items) => ItemsReadBack(items, u.items, s, r);
      case Dict(fields) =>
        var keys := Sorted(fields.Keys - DERIVATIVE_HASH_KEYS);
        FieldsDomain(t, keys, s);
        FieldsDomain(u, Sorted(u.fields.Keys - DERIVATIVE_HASH_KEYS), r);
        assert fields.Keys - DERIVATIVE_HASH_KEYS == u.fields.Keys - DERIVATIVE_HASH_KEYS;
        FieldsReadBack(t, u, keys, s, r);
    }
  }

  lemma {:induction false} FieldsDomain<A(!new)>(t: Source<A>, keys: seq<string>, s: seq<string>)
    requires t.Dict? && forall key | key in keys :: key in t.fields
    ensures forall key :: key in FrozenFields(t, keys, s).0 <==> key in keys
    decreases |keys|
  {
    if keys != [] {
      FieldsDomain(t, keys[1..], Frozen(t.fields[keys[0]], s).1);
    }
  }

  lemma {:induction false} ItemsReadBack<A(!new)>(t: seq<Source<A>>, u: seq<Source<A>>, s: seq<string>, r: seq<string>)
    requires InStep(s, r)
    requires forall i | 0 <= i < |t| :: LookAlikeFree(t[i])
    requires forall i | 0 <= i < |u| :: LookAlikeFree(u[i])
    requires FrozenItems(t, s).0 == FrozenItems(u, r).0
    ensures Extends(s, r, FrozenItems(t, s).1, FrozenItems(u, r).1)
    ensures |t| == |u| && forall i | 0 <= i < |t| :: Carries(t[i], u[i], Pairing(FrozenItems(t, s).1, FrozenItems(u, r).1))
    decreases t, 0, 0
  {
    hide LookAlikeFree, Pairing, Carries;
    assert |t| == |FrozenItems(t, s).0| && |u| == |FrozenItems(u, r).0|;
    if t != [] {
      assert FrozenItems(t, s).0[0] == FrozenItems(u, r).0[0];
      assert FrozenItems(t, s).0[1..] == FrozenItems(t[1..], Frozen(t[0], s).1).0;
      assert FrozenItems(u, r).0[1..] == FrozenItems(u[1..], Frozen(u[0], r).1).0;
      ReadsBack(t[0], u[0], s, r);
      var s', r' := Frozen(t[0], s).1, Frozen(u[0], r).1;
      ItemsReadBack(t[1..], u[1..], s', r');
      var s'', r'' := FrozenItems(t[1..], s').1, FrozenItems(u[1..], r').1;
      ExtendsTransitive(s, r, s', r', s'', r'');
      CarriesLonger(t[0], u[0], s', r', s'', r'');
      forall i | 0 <= i < |t| ensures Carries(t[i], u[i], Pairing(s'', r'')) {
        if i > 0 {
          assert t[i] == t[1..][i - 1] && u[i] == u[1..][i - 1];
        }
      }
    }
  }

  lemma {:induction false} FieldsReadBack<A(!new)>(t: Source<A>, u: Source<A>, keys: seq<string>, s: seq<string>, r: seq<string>)
    requires InStep(s, r) && StrictlySorted(keys)
    requires t.Dict? && u.Dict? && forall key | key in keys :: key in t.fields && key in u.fields
    requires forall key | key in keys :: LookAlikeFree(t.fields[key]) && LookAlikeFree(u.fields[key])
    requires FrozenFields(t, keys, s).0 == FrozenFields(u, keys, r).0
    ensures Extends(s, r, FrozenFields(t, keys, s).1, FrozenFields(u, keys, r).1)
    ensures forall key | key in keys ::
              Carries(t.fields[key], u.fields[key], Pairing(FrozenFields(t, keys, s).1, FrozenFields(u, keys, r).1))
    decreases t, 0, |keys|
  {
    hide LookAlikeFree, Pairing, Carries;
    if keys != [] {
      var key, rest := keys[0], keys[1..];
      assert key !in rest;
      var s', r' := Frozen(t.fields[key], s).1, Frozen(u.fields[key], r).1;
      FieldsDomain(t, rest, s');
      FieldsDomain(u, rest, r');
      var a, b := FrozenFields(t, rest, s').0, FrozenFields(u, rest, r').0;
      assert FrozenFields(t, keys, s).0[key] == FrozenFields(u, keys, r).0[key];
      assert FrozenFields(t, keys, s).0 - {key} == a && FrozenFields(u, keys, r).0 - {key} == b;
      ReadsBack(t.fields[key], u.fields[key], s, r);
      FieldsReadBack(t, u, rest, s', r');
      var s'', r'' := FrozenFields(t, rest, s').1, FrozenFields(u, rest, r').1;
      ExtendsTransitive(s, r, s', r', s'', r'');
      CarriesLonger(t.fields[key], u.fields[key], s', r', s'', r'');
    }
  }

  // ------------------------------------------------------------ the theorems

  /** Renaming UUIDs in values, changing their letter case or changing derivative hashes never shows. */
  lemma RenamingInvariant<A(!new)>(t: Source<A>, u: Source<A>)
    requires AlphaEquivalent(t, u)
    ensures Canonical(t) == Canonical(u)
  {
    var f: Renaming :| Injective(f) && Carries(t, u, f);
    IgnoresRenaming(t, u, [], [], f);
  }

  /** On trees whose text cannot be mistaken for a token the comparison is exactly renaming equivalence. */
  lemma EqualExactlyWhenRenamed<A(!new)>(t: Source<A>, u: Source<A>)
    requires LookAlikeFree(t) && LookAlikeFree(u)
    ensures Canonical(t) == Canonical(u) <==> AlphaEquivalent(t, u)
  {
    if Canonical(t) == Canonical(u) {
      ReadsBack(t, u, [], []);
      PairingInjective(Frozen(t, []).1, Frozen(u, []).1);
    } else if AlphaEquivalent(t, u) {
      RenamingInvariant(t, u);
    }
  }

  /** Dictionary keys are copied, never renamed: equal comparison values have the same keys, UUIDs or not. */
  lemma KeysAreNotRenamed<A(!new)>(t: Source<A>, u: Source<A>)
    requires t.Dict? && u.Dict? && Canonical(t) == Canonical(u)
    ensures t.fields.Keys - DERIVATIVE_HASH_KEYS == u.fields.Keys - DERIVATIVE_HASH_KEYS
  {
    var a, b := t.fields.Keys - DERIVATIVE_HASH_KEYS, u.fields.Keys - DERIVATIVE_HASH_KEYS;
    FieldsDomain(t, Sorted(a), []);
    FieldsDomain(u, Sorted(b), []);
    hide FrozenFields, Frozen;
    assert FrozenFields(t, Sorted(a), []).0 == FrozenFields(u, Sorted(b), []).0 by {
      CanonicalOfDict(t);
      CanonicalOfDict(u);
    }
    forall key ensures key in a <==> key in b {
      assert key in a <==> key in Sorted(a);
      assert key in b <==> key in Sorted(b);
    }
  }

  lemma CanonicalOfDict<A>(t: Source<A>)
    requires t.Dict?
    ensures Canonical(t) == Dict(FrozenFields(t, Sorted(t.fields.Keys - DERIVATIVE_HASH_KEYS), []).0)
  {}
}
