/**
 The converse of renaming equivalence: every plain text that holds a token the
 walk could have written is confused with the UUIDs it names.
 */
module UuidLookAlikes {
  import opened TextOrder
  import opened Trees
  import opened UuidTokens
  import opened UuidAlpha

  function Lowered(ids: seq<string>): seq<string> {
    seq(|ids|, i requires 0 <= i < |ids| => Lower(ids[i]))
  }

  /** UUIDs enough to number every token in the text. */
  ghost predicate Covers(ids: seq<string>, x: string) {
    forall i: nat, n: nat | n >= 1 && TokenAt(x, i, n) :: n <= |ids|
  }

  // ------------------------------------------------- cutting the tokens out

  lemma {:induction false} LeastToken(x: string, i: nat, n: nat) returns (least: nat, number: nat)
    requires n >= 1 && TokenAt(x, i, n)
    ensures number >= 1 && TokenAt(x, least, number)
    ensures forall j: nat, m: nat | m >= 1 && j < least :: !TokenAt(x, j, m)
    decreases i
  {
    hide TokenAt;
    if j: nat, m: nat :| m >= 1 && j < i && TokenAt(x, j, m) {
      least, number := LeastToken(x, j, m);
    } else {
      least, number := i, n;
    }
  }

  ghost predicate FirstAt(x: string, i: nat, n: nat) {
    n >= 1 && TokenAt(x, i, n) && TokenFree(x[..i])
  }

  lemma FirstExists(x: string)
    requires !TokenFree(x)
    ensures exists i: nat, n: nat :: FirstAt(x, i, n)
  {
    var i: nat, n: nat :| n >= 1 && TokenAt(x, i, n);
    var least, number := LeastToken(x, i, n);
    NothingBefore(x, least);
    assert FirstAt(x, least, number);
  }

  /** A text with a token, split around the first one. */
  datatype Split = Split(before: string, number: nat, after: string)

  ghost predicate SplitsAtFirst(x: string, s: Split) {
    s.number >= 1 && TokenFree(s.before) && x == s.before + (Token(s.number) + s.after)
  }

  lemma SplitExists(x: string)
    requires !TokenFree(x)
    ensures exists s :: SplitsAtFirst(x, s)
  {
    FirstExists(x);
    var i: nat, n: nat :| FirstAt(x, i, n);
    assert x == x[..i] + (x[i..i + |Token(n)|] + x[i + |Token(n)|..]);
    assert SplitsAtFirst(x, Split(x[..i], n, x[i + |Token(n)|..]));
  }

  ghost function SplitText(x: string): (s: Split)
    requires !TokenFree(x)
    ensures SplitsAtFirst(x, s) && |s.after| < |x|
  {
    SplitExists(x);
    var s :| SplitsAtFirst(x, s);
    TokenOpensOnce(s.number);
    s
  }

  lemma NothingBefore(x: string, i: nat)
    requires i <= |x| && forall j: nat, m: nat | m >= 1 && j < i :: !TokenAt(x, j, m)
    ensures TokenFree(x[..i])
  {
    forall j: nat, m: nat | m >= 1 ensures !TokenAt(x[..i], j, m) {
      TokenOpensOnce(m);
      assert j + |Token(m)| <= i ==> x[..i][j..j + |Token(m)|] == x[j..j + |Token(m)|];
      assert TokenAt(x[..i], j, m) ==> TokenAt(x, j, m);
    }
  }

  lemma TokenFurtherOn(before: string, after: string, i: nat, n: nat)
    requires TokenAt(after, i, n)
    ensures TokenAt(before + after, |before| + i, n)
  {
    assert (before + after)[|before| + i..|before| + i + |Token(n)|] == after[i..i + |Token(n)|];
  }

  lemma CoversSplit(ids: seq<string>, x: string, s: Split)
    requires Covers(ids, x) && SplitsAtFirst(x, s)
    ensures 1 <= s.number <= |ids| && Covers(ids, s.after)
  {
    var token := Token(s.number);
    assert (token + s.after)[0..|token|] == token;
    assert TokenAt(token + s.after, 0, s.number);
    TokenFurtherOn(s.before, token + s.after, 0, s.number);
    hide TokenAt, TokenFree, Token;
    assert s.before + (token + s.after) == s.before + token + s.after;
    forall i: nat, n: nat | n >= 1 && TokenAt(s.after, i, n) ensures n <= |ids| {
      TokenFurtherOn(s.before + token, s.after, i, n);
    }
  }

  /** The text with each token replaced by the UUID it numbers. */
  ghost function Cut(ids: seq<string>, x: string): Segmented
    requires Covers(ids, x)
    decreases |x|
  {
    if TokenFree(x) then Segmented(x, [])
    else
      var s := SplitText(x);
      CoversSplit(ids, x, s);
      var rest := Cut(ids, s.after);
      Segmented(s.before, [Piece(ids[s.number - 1], rest.head)] + rest.pieces)
  }

  /** Once all the UUIDs are known, the piece with the n-th of them freezes to token n. */
  lemma KnownPiece(ids: seq<string>, n: nat, text: string, pieces: seq<Piece>)
    requires Distinct(Lowered(ids)) && 1 <= n <= |ids|
    ensures FrozenPieces([Piece(ids[n - 1], text)] + pieces, Lowered(ids)).0
         == Token(n) + (text + FrozenPieces(pieces, Lowered(ids)).0)
  {
    assert Lowered(ids)[n - 1] == Lower(ids[n - 1]);
    assert Note(Lower(ids[n - 1]), Lowered(ids)) == Lowered(ids);
    assert TokenOf(Lower(ids[n - 1]), Lowered(ids)) == Token(n);
    hide Lower, Token, Lowered, Note;
    assert ([Piece(ids[n - 1], text)] + pieces)[1..] == pieces;
  }

  lemma OneMorePiece(piece: Piece, pieces: seq<Piece>)
    requires TokenFree(piece.text) && TextsTokenFree(pieces)
    ensures TextsTokenFree([piece] + pieces)
  {
    hide TokenFree;
  }

  /** The cut text freezes back to the text itself, once its UUIDs are known, and holds no token of its own. */
  ghost predicate FreezesBack(ids: seq<string>, cut: Segmented, x: string) {
    cut.head + FrozenPieces(cut.pieces, Lowered(ids)).0 == x && TokenFree(cut.head) && TextsTokenFree(cut.pieces)
  }

  lemma JoinFirst(ids: seq<string>, x: string, s: Split, rest: Segmented)
    requires Distinct(Lowered(ids)) && 1 <= s.number <= |ids|
    requires SplitsAtFirst(x, s) && FreezesBack(ids, rest, s.after)
    ensures FreezesBack(ids, Segmented(s.before, [Piece(ids[s.number - 1], rest.head)] + rest.pieces), x)
  {
    hide FrozenPieces, Distinct, TextsTokenFree, TokenFree, Token, Lowered;
    KnownPiece(ids, s.number, rest.head, rest.pieces);
    OneMorePiece(Piece(ids[s.number - 1], rest.head), rest.pieces);
  }

  lemma {:induction false} CutFreezesBack(ids: seq<string>, x: string)
    requires Distinct(Lowered(ids)) && Covers(ids, x)
    ensures FreezesBack(ids, Cut(ids, x), x)
    ensures Cut(ids, x).pieces == [] <==> TokenFree(x)
    decreases |x|
  {
    hide TokenFree, Token, Covers, Lowered, Distinct, SplitsAtFirst;
    if TokenFree(x) {
      assert x + "" == x;
    } else {
      hide FreezesBack;
      var s := SplitText(x);
      CoversSplit(ids, x, s);
      CutFreezesBack(ids, s.after);
      JoinFirst(ids, x, s, Cut(ids, s.after));
    }
  }

  // ------------------------------------------------------------- the trees

  function AllPieces(ids: seq<string>): seq<Piece> {
    seq(|ids|, i requires 0 <= i < |ids| => Piece(ids[i], ""))
  }

  /** A tree that shows these UUIDs first and the given text after them. */
  function After<A>(ids: seq<string>, text: Segmented): Source<A> {
    List([Text(Segmented("", AllPieces(ids))), Text(text)])
  }

  lemma {:induction false} AllSeen(ids: seq<string>, k: nat)
    requires Distinct(Lowered(ids)) && k <= |ids|
    ensures FrozenPieces(AllPieces(ids)[k..], Lowered(ids)[..k]).1 == Lowered(ids)
    decreases |ids| - k
  {
    hide TokenOf;
    if k < |ids| {
      var seen := Lowered(ids)[..k];
      var uuid := Lower(ids[k]);
      assert Lowered(ids)[k] == uuid && forall j | 0 <= j < k :: seen[j] == Lowered(ids)[j] != uuid;
      assert Note(uuid, seen) == Lowered(ids)[..k + 1];
      assert AllPieces(ids)[k..][1..] == AllPieces(ids)[k + 1..];
      AllSeen(ids, k + 1);
    } else {
      assert Lowered(ids)[..k] == Lowered(ids) && AllPieces(ids)[k..] == [];
    }
  }

  lemma CanonicalAfter<A>(ids: seq<string>, text: Segmented)
    requires Distinct(Lowered(ids))
    ensures Canonical(After<A>(ids, text))
         == List([Text("" + FrozenPieces(AllPieces(ids), []).0), Text(text.head + FrozenPieces(text.pieces, Lowered(ids)).0)])
  {
    AllSeen(ids, 0);
    assert AllPieces(ids)[0..] == AllPieces(ids) && Lowered(ids)[..0] == [];
    hide FrozenPieces, Lowered, AllPieces;
    var first: Source<A>, second: Source<A> := Text(Segmented("", AllPieces(ids))), Text(text);
    assert [first, second][1..] == [second] && [second][1..] == [];
    assert FrozenItems([second], Lowered(ids)).0 == [Frozen(second, Lowered(ids)).0];
    assert FrozenItems([first, second], []).0 == [Frozen(first, []).0, Frozen(second, Lowered(ids)).0];
  }

  lemma AfterIsLookAlikeFree<A(!new)>(ids: seq<string>, text: Segmented)
    requires TokenFree(text.head) && TextsTokenFree(text.pieces)
    ensures LookAlikeFree(After<A>(ids, text))
  {
    assert forall n :: |Token(n)| > 0;
    assert TokenFree("");
  }

  /**
   Every plain text with a token in it is confused: after the UUIDs it numbers it
   compares equal to a look-alike-free tree that no renaming carries it to.
   */
  lemma LookAlikeIsConfused<A(!new)>(ids: seq<string>, x: string) returns (u: Source<A>)
    requires Distinct(Lowered(ids)) && Covers(ids, x) && !TokenFree(x)
    ensures LookAlikeFree(u)
    ensures Canonical(After<A>(ids, Segmented(x, []))) == Canonical(u)
    ensures !AlphaEquivalent(After<A>(ids, Segmented(x, [])), u)
  {
    var cut := Cut(ids, x);
    CutFreezesBack(ids, x);
    u := After(ids, cut);
    AfterIsLookAlikeFree<A>(ids, cut);
    CanonicalAfter<A>(ids, cut);
    CanonicalAfter<A>(ids, Segmented(x, []));
    assert x + "" == x;
    hide Cut, TokenFree, Canonical, LookAlikeFree;
    var t: Source<A> := After(ids, Segmented(x, []));
    forall f: Renaming ensures !Carries(t, u, f) {
      assert |t.items[1].text.pieces| != |u.items[1].text.pieces|;
      assert !Carries(t.items[1], u.items[1], f);
    }
  }

  /** Compared with look-alike-free trees, a text after these UUIDs is never confused. */
  ghost predicate NeverConfused<A(!new)>(ids: seq<string>, x: string) {
    var t: Source<A> := After(ids, Segmented(x, []));
    forall u: Source<A> | LookAlikeFree(u) && Canonical(t) == Canonical(u) :: AlphaEquivalent(t, u)
  }

  /** A text is safe exactly when it holds no whole token. */
  lemma NeverConfusedExactly<A(!new)>(ids: seq<string>, x: string)
    requires Distinct(Lowered(ids)) && Covers(ids, x)
    ensures NeverConfused<A>(ids, x) <==> TokenFree(x)
  {
    var t: Source<A> := After(ids, Segmented(x, []));
    if TokenFree(x) {
      AfterIsLookAlikeFree<A>(ids, Segmented(x, []));
      forall u: Source<A> | LookAlikeFree(u) && Canonical(t) == Canonical(u) ensures AlphaEquivalent(t, u) {
        EqualExactlyWhenRenamed(t, u);
      }
    } else {
      var u := LookAlikeIsConfused<A>(ids, x);
    }
  }

  // ------------------------------------------------- UUIDs enough for a text

  lemma OneTokenPerPlace(x: string, i: nat, m: nat, n: nat)
    requires TokenAt(x, i, m) && TokenAt(x, i, n)
    ensures m == n
  {
    assert x[i..] == Token(m) + x[i + |Token(m)|..];
    assert x[i..] == Token(n) + x[i + |Token(n)|..];
    TokenReadsBack(m, x[i + |Token(m)|..], n, x[i + |Token(n)|..]);
  }

  /** The numbers of the tokens in a text are bounded. */
  lemma {:induction false} NumbersBounded(x: string, k: nat) returns (bound: nat)
    ensures forall i: nat, n: nat | i < k && TokenAt(x, i, n) :: n <= bound
  {
    hide TokenAt;
    bound := 0;
    if k > 0 {
      var last: nat := k - 1;
      bound := NumbersBounded(x, last);
      if m: nat :| TokenAt(x, last, m) {
        forall n: nat | TokenAt(x, last, n) ensures n == m {
          OneTokenPerPlace(x, last, m, n);
        }
        bound := if m > bound then m else bound;
      }
    }
  }

  lemma DigitsAreLower(n: nat)
    ensures Lower(Decimal(n)) == Decimal(n)
  {
    assert forall c | c in DIGITS :: LowerChar(c) == c;
    assert forall i | 0 <= i < |Decimal(n)| :: Decimal(n)[i] in DIGITS;
  }

  /** Names enough for any text. They are decimals, not texts the UUID pattern matches: there are only finitely many of those. */
  lemma SupplyExists(x: string) returns (ids: seq<string>)
    ensures Distinct(Lowered(ids)) && Covers(ids, x)
  {
    var bound := NumbersBounded(x, |x|);
    ids := seq(bound, i requires 0 <= i < bound => Decimal(i));
    forall i, j | 0 <= i < j < bound ensures Lowered(ids)[i] != Lowered(ids)[j] {
      DigitsAreLower(i);
      DigitsAreLower(j);
      if Decimal(i) == Decimal(j) {
        DecimalInjective(i, j);
      }
    }
    hide Lowered;
    forall i: nat, n: nat | n >= 1 && TokenAt(x, i, n) ensures n <= |ids| {
      TokenOpensOnce(n);
    }
  }

  /**
   The same with identities of any form: `NeverConfusedExactly` says it for given
   UUIDs, here the ones that spoil a text may be any names.
   */
  lemma SafeTextExactly<A(!new)>(x: string)
    ensures TokenFree(x) <==> forall ids | Distinct(Lowered(ids)) :: NeverConfused<A>(ids, x)
  {
    if TokenFree(x) {
      forall ids | Distinct(Lowered(ids)) ensures NeverConfused<A>(ids, x) {
        NeverConfusedExactly<A>(ids, x);
      }
    } else {
      var ids := SupplyExists(x);
      NeverConfusedExactly<A>(ids, x);
    }
  }
}
