/** Restoring the protected literals undoes the extraction, and exactly when. */
module QuotedRoundTrip {
  import opened Decimal
  import opened QuotedLiterals

  // ---------- Restoring, literal by literal ----------

  /** Restoring from literal number `i` on. */
  function RestoredFrom(s: string, i: nat, literals: seq<string>): string
    decreases literals
  {
    if literals == [] then s else RestoredFrom(Replace(s, Token(i), SqlLiteral(literals[0])), i + 1, literals[1..])
  }

  lemma {:induction false} RestoredFromStart(s: string, i: nat, literals: seq<string>, n: nat)
    requires n <= |literals|
    ensures RestoredFrom(s, i, literals) == RestoredFrom(RestoredFrom(s, i, literals[..n]), i + n, literals[n..])
    decreases n
  {
    hide Replace, Token, SqlLiteral;
    if n == 0 {
    } else {
      var t := Replace(s, Token(i), SqlLiteral(literals[0]));
      assert literals[..n][1..] == literals[1..][..n - 1] && literals[1..][n - 1..] == literals[n..];
      RestoredFromStart(t, i + 1, literals[1..], n - 1);
    }
  }

  lemma {:induction false} RestoredIsFromStart(s: string, literals: seq<string>)
    ensures Restored(s, literals) == RestoredFrom(s, 0, literals)
  {
    hide Replace, Token, SqlLiteral;
    if literals == [] {
    } else {
      var n := |literals| - 1;
      RestoredIsFromStart(s, literals[..n]);
      RestoredFromStart(s, 0, literals, n);
      var t := RestoredFrom(s, 0, literals[..n]);
      assert literals[n..] == [literals[n]];
      assert RestoredFrom(t, n, [literals[n]]) == Replace(t, Token(n), SqlLiteral(literals[n]));
    }
  }

  /** Equal up to the kind of quote. */
  predicate SameButQuotes(a: string, b: string) {
    |a| == |b| && forall i :: 0 <= i < |a| ==> a[i] == b[i] || (IsQuote(a[i]) && IsQuote(b[i]))
  }

  lemma RequotedNoTokenStart(t: string, a: string, b: string, rest: string)
    requires SameButQuotes(a, b) && NoTokenStart(t + a + rest)
    ensures NoTokenStart(t + b + rest)
  {
    var x, y := t + a + rest, t + b + rest;
    forall i | 0 <= i < |x| ensures x[i] == y[i] || (IsQuote(x[i]) && IsQuote(y[i])) {
      if |t| <= i < |t| + |a| {
        assert x[i] == a[i - |t|] && y[i] == b[i - |t|];
      }
    }
    forall i | 0 <= i < |y| ensures !TokenStart(y, i) {
      assert !TokenStart(x, i);
    }
  }

  /** The restored part of the text contains no token, not even across its end. */
  lemma NoTokenBefore(t: string, i: nat, rest: string, p: int)
    requires NoTokenStart(t) && 0 <= p < |t|
    ensures !OccursAt(t + Token(i) + rest, Token(i), p)
  {
    var s := t + Token(i) + rest;
    TokenShape(i);
    hide Token;
    assert forall k :: 0 <= k < |t| ==> s[k] == t[k];
    assert s[|t|] == Token(i)[0] && s[|t| + 1] == Token(i)[1];
    assert !TokenStart(t, p);
    if OccursAt(s, Token(i), p) {
      OccurrenceStarts(s, i, p);
      assert false;
    }
  }

  lemma NoTokenStartPrefix(t: string, s: string)
    requires NoTokenStart(t + s)
    ensures NoTokenStart(t)
  {
    forall i | 0 <= i < |t| ensures !TokenStart(t, i) {
      assert !TokenStart(t + s, i);
    }
  }

  lemma SqlLiteralSame(lit: string)
    ensures SameButQuotes(lit, SqlLiteral(lit))
  {
  }

  lemma NothingToRestore(s: string, i: nat)
    ensures RestoredFrom(s, i, []) == s && s + [] == s
  {
  }

  lemma RestoredFromNext(s: string, i: nat, lit: string, literals: seq<string>)
    ensures RestoredFrom(s, i, [lit] + literals) == RestoredFrom(Replace(s, Token(i), SqlLiteral(lit)), i + 1, literals)
  {
    hide Replace, Token, SqlLiteral;
    assert ([lit] + literals)[1..] == literals;
  }

  // ---------- When every token is found in its own place ----------

  /** Restoring literal number i, with everything before it restored to `t` and `rest` still protected,
      meets the text of its token nowhere else. */
  ghost predicate OnlyOwnToken(t: string, rest: string, i: nat) {
    && (forall p :: 0 <= p < |t| ==> !OccursAt(t + Token(i), Token(i), p))
    && (forall p :: !OccursAt(rest, Token(i), p))
  }

  /** `OnlyOwnToken` for every literal of `s`, behind the restored text `t`. */
  ghost predicate Unmistakable(t: string, s: string, i: nat)
    decreases |s|
  {
    if s == [] then true
    else if !IsQuote(s[0]) then Unmistakable(t + [s[0]], s[1..], i)
    else
      var n := LiteralLength(s);
      n == 0 || (OnlyOwnToken(t, Protect(s[n..], i + 1), i) && Unmistakable(t + SqlLiteral(s[..n]), s[n..], i + 1))
  }

  lemma OwnTokenFirst(t: string, rest: string, i: nat, p: int)
    requires OccursAt(t + Token(i) + rest, Token(i), p) && 0 <= p < |t|
    ensures OccursAt(t + Token(i), Token(i), p)
  {
    hide Token;
    assert (t + Token(i) + rest)[p..p + |Token(i)|] == (t + Token(i))[p..p + |Token(i)|];
  }

  /** Restoring an unmistakable token changes exactly its place. */
  lemma RestoreOne(t: string, rest: string, i: nat, lit: string)
    requires OnlyOwnToken(t, rest, i)
    ensures Replace(t + Token(i) + rest, Token(i), lit) == t + lit + rest
  {
    hide Token, OccursAt;
    forall p | 0 <= p < |t| ensures !OccursAt(t + Token(i) + rest, Token(i), p) {
      if OccursAt(t + Token(i) + rest, Token(i), p) {
        OwnTokenFirst(t, rest, i, p);
      }
    }
    ReplaceNone(rest, Token(i), lit);
    ReplaceFirst(t, rest, Token(i), lit);
  }

  lemma {:induction false} UnmistakableRestores(t: string, s: string, i: nat)
    requires Unmistakable(t, s, i)
    ensures RestoredFrom(t + Protect(s, i), i, Literals(s)) == t + Requote(s)
    decreases |s|
  {
    hide Replace, Token, SqlLiteral, RestoredFrom, Protect, Requote, Literals, LiteralLength, OnlyOwnToken;
    if s == [] {
      UnfoldRest(s, i);
      NothingToRestore(t, i);
    } else if !IsQuote(s[0]) {
      var c := [s[0]];
      UnfoldText(s, i);
      UnmistakableRestores(t + c, s[1..], i);
      assert t + (c + Protect(s[1..], i)) == t + c + Protect(s[1..], i);
      assert t + (c + Requote(s[1..])) == t + c + Requote(s[1..]);
    } else if LiteralLength(s) > 0 {
      var n := LiteralLength(s);
      var lit, rest := SqlLiteral(s[..n]), s[n..];
      UnfoldLiteral(s, i);
      RestoreOne(t, Protect(rest, i + 1), i, lit);
      UnmistakableRestores(t + lit, rest, i + 1);
      RestoredFromNext(t + Protect(s, i), i, s[..n], Literals(rest));
      assert t + (Token(i) + Protect(rest, i + 1)) == t + Token(i) + Protect(rest, i + 1);
      assert t + (lit + Requote(rest)) == t + lit + Requote(rest);
    } else {
      UnfoldRest(s, i);
      NothingToRestore(t + s, i);
    }
  }

  // ---------- Texts without token starts are unmistakable ----------

  lemma RestorableOwnToken(t: string, s: string, i: nat)
    requires s != [] && IsQuote(s[0]) && LiteralLength(s) > 0 && NoTokenStart(t + s) && LiteralsFollowedSafely(s)
    ensures OnlyOwnToken(t, Protect(s[LiteralLength(s)..], i + 1), i)
  {
    var n := LiteralLength(s);
    assert LiteralsFollowedSafely(s[n..]);
    assert (t + s)[|t| + n..] == s[n..];
    RestorableSuffix(t + s, |t| + n);
    NoTokenStartPrefix(t, s);
    hide LiteralLength, Token, NoTokenStart, LiteralsFollowedSafely, OccursAt;
    forall p | 0 <= p < |t| ensures !OccursAt(t + Token(i), Token(i), p) {
      NoTokenBefore(t, i, [], p);
      assert t + Token(i) + [] == t + Token(i);
    }
    var rest := Protect(s[n..], i + 1);
    forall p ensures !OccursAt(rest, Token(i), p) {
      TokensOccurOnce(s[n..], i + 1, i, p);
    }
  }

  lemma {:induction false} RestorableIsUnmistakable(t: string, s: string, i: nat)
    requires NoTokenStart(t + s) && LiteralsFollowedSafely(s)
    ensures Unmistakable(t, s, i)
    decreases |s|
  {
    hide SqlLiteral, NoTokenStart, FollowsSafely, Protect, LiteralLength, OnlyOwnToken;
    if s == [] {
    } else {
      if !IsQuote(s[0]) {
        assert t + [s[0]] + s[1..] == t + s;
        RestorableIsUnmistakable(t + [s[0]], s[1..], i);
      } else if LiteralLength(s) > 0 {
        var n := LiteralLength(s);
        RestorableOwnToken(t, s, i);
        assert t + s[..n] + s[n..] == t + s;
        SqlLiteralSame(s[..n]);
        RequotedNoTokenStart(t, s[..n], SqlLiteral(s[..n]), s[n..]);
        RestorableIsUnmistakable(t + SqlLiteral(s[..n]), s[n..], i + 1);
      }
    }
  }

  // ---------- A mistaken token cannot be repaired ----------

  /** Up to place p the texts agree; there `y` has a quote and `r` has none. */
  predicate QuoteTooEarly(y: string, r: string, p: int) {
    0 <= p < |y| && p < |r| && y[..p] == r[..p] && IsQuote(y[p]) && !IsQuote(r[p])
  }

  /** Up to place p the texts agree; there `r` has a quote, and `y` a token cut off by a quote at q. */
  predicate TokenCutOff(y: string, r: string, p: int, q: int, i: nat) {
    && 0 <= p < q < |y| && p < |r| && y[..p] == r[..p] && IsQuote(r[p])
    && q - p < |Token(i)| && y[p..q] == Token(i)[..q - p] && IsQuote(y[q])
  }

  ghost predicate Spoiled(y: string, r: string) {
    (exists p :: QuoteTooEarly(y, r, p)) || (exists p, q, i: nat :: TokenCutOff(y, r, p, q, i))
  }

  lemma CutOffStart(y: string, r: string, p: int, q: int, i: nat)
    requires TokenCutOff(y, r, p, q, i)
    ensures y[p] == '_'
  {
    TokenShape(i);
    hide Token;
    assert y[p] == y[p..q][0] == Token(i)[0];
  }

  lemma SpoiledDiffers(y: string, r: string)
    requires Spoiled(y, r)
    ensures y != r
  {
    if p, q, i: nat :| TokenCutOff(y, r, p, q, i) {
      CutOffStart(y, r, p, q, i);
    }
  }

  lemma {:induction false} FirstOccurrence(s: string, token: string, p: int) returns (q: int)
    requires OccursAt(s, token, p)
    ensures 0 <= q <= p && OccursAt(s, token, q) && forall o :: 0 <= o < q ==> !OccursAt(s, token, o)
    decreases p
  {
    if o :| 0 <= o < p && OccursAt(s, token, o) {
      q := FirstOccurrence(s, token, o);
    } else {
      q := p;
    }
  }

  lemma CutAt(s: string, token: string, q: int) returns (a: string, rest: string)
    requires OccursAt(s, token, q)
    ensures q >= 0 && q + |token| <= |s| && a == s[..q] && rest == s[q + |token|..] && a + token + rest == s
  {
    a, rest := s[..q], s[q + |token|..];
  }

  lemma ReplaceAtFirst(s: string, token: string, lit: string, q: int)
    requires token != [] && OccursAt(s, token, q) && forall o :: 0 <= o < q ==> !OccursAt(s, token, o)
    ensures q >= 0 && q + |token| <= |s|
    ensures Replace(s, token, lit) == s[..q] + lit + Replace(s[q + |token|..], token, lit)
  {
    var a, rest := CutAt(s, token, q);
    hide OccursAt, Replace;
    ReplaceFirst(a, rest, token, lit);
  }

  lemma TokenChars(s: string, t: string, o: int)
    requires OccursAt(s, t, o)
    ensures o >= 0 && o + |t| <= |s| && forall k :: o <= k < o + |t| ==> s[k] == t[k - o]
  {
    forall k | o <= k < o + |t| ensures s[k] == t[k - o] {
      assert s[o..o + |t|][k - o] == s[k];
    }
  }

  /** A token has two underscores and a `Q` where it starts, and no quote. */
  lemma OccurrenceHasNoQuote(s: string, i: nat, o: int)
    requires OccursAt(s, Token(i), o)
    ensures 0 <= o && o + |Token(i)| <= |s| && |Token(i)| >= 6
    ensures s[o] == '_' && s[o + 1] == '_' && s[o + 2] == 'Q'
    ensures forall k :: o <= k < o + |Token(i)| ==> !IsQuote(s[k])
  {
    TokenShape(i);
    hide Token;
    TokenChars(s, Token(i), o);
  }

  /** No token starts where a token is cut off. */
  lemma NothingInCutOff(y: string, r: string, p: int, q: int, i: nat, j: nat, o: int)
    requires TokenCutOff(y, r, p, q, i) && OccursAt(y, Token(j), o)
    ensures o < p || o > q
  {
    if p <= o <= q {
      OccurrenceHasNoQuote(y, j, o);
      assert forall k :: p <= k < q ==> y[k] == Token(i)[k - p];
      TokenShape(i);
      assert o + |Token(j)| <= q;
      assert y[o + 2] == Token(i)[o + 2 - p];
      assert o == p;
      assert Token(j) == Token(i)[..|Token(j)|] by {
        assert y[o..o + |Token(j)|] == y[p..q][..|Token(j)|];
      }
      TokenPrefix(i, j, Token(i));
      assert false;
    }
  }

  /** A change behind the first difference keeps it. */
  lemma PrefixKept(y: string, y': string, p: int, q: int)
    requires 0 <= p <= q <= |y| && q <= |y'| && y'[..q] == y[..q]
    ensures y'[..p] == y[..p] && forall k :: 0 <= k < q ==> y'[k] == y[k]
  {
    assert y'[..p] == y'[..q][..p] && y[..p] == y[..q][..p];
    forall k | 0 <= k < q ensures y'[k] == y[k] {
      assert y'[..q][k] == y[..q][k];
    }
  }

  lemma TooEarlyStays(y: string, y': string, r: string, p: int, q: int)
    requires QuoteTooEarly(y, r, p) && 0 <= q < |y| && q < |y'| && !IsQuote(y[q])
    requires y'[..q] == y[..q] && IsQuote(y'[q])
    ensures Spoiled(y', r)
  {
    if q < p {
      assert QuoteTooEarly(y', r, q);
    } else {
      PrefixKept(y, y', p, q);
      assert QuoteTooEarly(y', r, p);
    }
  }

  lemma CutOffStays(y: string, y': string, r: string, p: int, e: int, j: nat, q: int)
    requires TokenCutOff(y, r, p, e, j) && 0 <= q < |y| && q < |y'| && !IsQuote(y[q]) && (q < p || q > e)
    requires y'[..q] == y[..q] && IsQuote(y'[q])
    ensures Spoiled(y', r)
  {
    hide Token;
    if q < p {
      assert QuoteTooEarly(y', r, q);
    } else {
      PrefixKept(y, y', p, q);
      assert y'[p..e] == y[p..e];
      assert TokenCutOff(y', r, p, e, j);
    }
  }

  lemma ReplaceFront(y: string, i: nat, lit: string, q: int)
    requires OccursAt(y, Token(i), q) && (forall o :: 0 <= o < q ==> !OccursAt(y, Token(i), o)) && lit != []
    ensures var y' := Replace(y, Token(i), lit);
      0 <= q < |y| && q < |y'| && y'[..q] == y[..q] && y'[q] == lit[0] && !IsQuote(y[q])
  {
    hide Token, Replace;
    OccurrenceHasNoQuote(y, i, q);
    hide OccursAt;
    ReplaceAtFirst(y, Token(i), lit, q);
  }

  /** Replacing one more token leaves a spoiled text spoiled. */
  lemma SpoiledStays(y: string, r: string, i: nat, lit: string)
    requires Spoiled(y, r) && lit != [] && IsQuote(lit[0])
    ensures Spoiled(Replace(y, Token(i), lit), r)
  {
    hide Token, Replace, OccursAt, QuoteTooEarly, TokenCutOff;
    if o :| OccursAt(y, Token(i), o) {
      assert o >= 0 by { TokenChars(y, Token(i), o); }
      var q := FirstOccurrence(y, Token(i), o);
      ReplaceFront(y, i, lit, q);
      var y' := Replace(y, Token(i), lit);
      if p :| QuoteTooEarly(y, r, p) {
        TooEarlyStays(y, y', r, p, q);
      } else {
        var p, e, j: nat :| TokenCutOff(y, r, p, e, j);
        NothingInCutOff(y, r, p, e, j, i, q);
        CutOffStays(y, y', r, p, e, j, q);
      }
    } else {
      ReplaceNone(y, Token(i), lit);
    }
  }

  /** However many literals are still to be restored. */
  lemma {:induction false} SpoiledForGood(y: string, r: string, i: nat, literals: seq<string>)
    requires Spoiled(y, r) && forall k :: 0 <= k < |literals| ==> literals[k] != [] && IsQuote(literals[k][0])
    ensures RestoredFrom(y, i, literals) != r
    decreases literals
  {
    hide Token, Replace, Spoiled;
    if literals == [] {
      SpoiledDiffers(y, r);
    } else {
      SpoiledStays(y, r, i, SqlLiteral(literals[0]));
      SpoiledForGood(Replace(y, Token(i), SqlLiteral(literals[0])), r, i + 1, literals[1..]);
    }
  }

  lemma {:induction false} LiteralsStartWithQuotes(s: string)
    ensures forall k :: 0 <= k < |Literals(s)| ==> Literals(s)[k] != [] && IsQuote(Literals(s)[k][0])
    decreases |s|
  {
    if s == [] {
    } else {
      if !IsQuote(s[0]) {
        LiteralsStartWithQuotes(s[1..]);
      } else if LiteralLength(s) > 0 {
        LiteralsStartWithQuotes(s[LiteralLength(s)..]);
      }
    }
  }

  // ---------- A token text behind its own place ----------

  /** The text `y` follows the protected text `z` up to place q, where a token text of number k stood that
      has been replaced. */
  predicate Strays(y: string, z: string, q: int, k: nat) {
    OccursAt(z, Token(k), q) && 0 <= q < |y| && q < |z| && y[..q] == z[..q] && IsQuote(y[q]) && !IsQuote(z[q])
  }

  lemma OccursInPrefix(y: string, z: string, i: nat, f: int, q: int)
    requires OccursAt(y, Token(i), f) && f + |Token(i)| <= q <= |y| && q <= |z| && y[..q] == z[..q]
    ensures OccursAt(z, Token(i), f)
  {
    hide Token;
    assert y[f..f + |Token(i)|] == y[..q][f..f + |Token(i)|] && z[f..f + |Token(i)|] == z[..q][f..f + |Token(i)|];
  }

  /** Replacing a token in a stray text leaves it stray. */
  lemma StraysOn(y: string, z: string, q: int, k: nat, i: nat, lit: string)
    requires Strays(y, z, q, k) && lit != [] && IsQuote(lit[0])
    ensures exists q', k' :: (k' == k || k' == i) && Strays(Replace(y, Token(i), lit), z, q', k')
  {
    hide Token, Replace, OccursAt;
    var y' := Replace(y, Token(i), lit);
    if o :| OccursAt(y, Token(i), o) {
      assert o >= 0 by { TokenChars(y, Token(i), o); }
      var f := FirstOccurrence(y, Token(i), o);
      ReplaceFront(y, i, lit, f);
      OccurrenceHasNoQuote(y, i, f);
      if f < q {
        OccursInPrefix(y, z, i, f, q);
        assert z[..f] == z[..q][..f] == y[..q][..f] == y[..f];
        assert z[f] == z[..q][f] == y[..q][f] == y[f];
        assert Strays(y', z, f, i);
      } else {
        PrefixKept(y, y', q, f);
        assert Strays(y', z, q, k);
      }
    } else {
      ReplaceNone(y, Token(i), lit);
      assert Strays(y', z, q, k);
    }
  }

  /** A token text found in a protected text goes astray when that token is replaced. */
  lemma GoesAstray(z: string, i: nat, o: int, lit: string)
    requires OccursAt(z, Token(i), o) && lit != [] && IsQuote(lit[0])
    ensures exists q :: Strays(Replace(z, Token(i), lit), z, q, i)
  {
    hide Token, Replace, OccursAt;
    assert o >= 0 by { TokenChars(z, Token(i), o); }
    var f := FirstOccurrence(z, Token(i), o);
    ReplaceFront(z, i, lit, f);
    assert Strays(Replace(z, Token(i), lit), z, f, i);
  }

  /** A token text that begins in the restored part is taken for the token. */
  lemma EarlyToken(t: string, y: string, r: string, i: nat, lit: string, o: int)
    requires t <= y && t <= r && OccursAt(y, Token(i), o) && o < |t| && lit != [] && IsQuote(lit[0])
    ensures Spoiled(Replace(y, Token(i), lit), r)
  {
    hide Token, Replace, OccursAt;
    assert o >= 0 by { TokenChars(y, Token(i), o); }
    var f := FirstOccurrence(y, Token(i), o);
    ReplaceFront(y, i, lit, f);
    var y' := Replace(y, Token(i), lit);
    assert r[f] == t[f] == y[f];
    assert r[..f] == t[..f] == y[..f];
    assert QuoteTooEarly(y', r, f);
  }

  lemma StrayText(t: string, y: string, s: string, tail: string, q: int)
    requires 0 <= q < |y| && q < |s| && y[..q] == s[..q] && IsQuote(y[q]) && !IsQuote(s[q])
    ensures Spoiled(t + y, t + s + tail)
  {
    var r := t + s + tail;
    assert (t + y)[..|t| + q] == t + y[..q] && r[..|t| + q] == t + s[..q];
    assert QuoteTooEarly(t + y, r, |t| + q);
  }

  /** A stray text is cut off in the next token, or has that token whole. */
  lemma StrayToken(t: string, y: string, rest: string, i: nat, q: int, k: nat, r: string)
    requires Strays(y, Token(i) + rest, q, k) && k != i && q < |Token(i)|
    requires t <= r && |t| < |r| && IsQuote(r[|t|])
    ensures Spoiled(t + y, r)
  {
    var z := Token(i) + rest;
    if q == 0 {
      assert Token(k) <= z;
      TokenPrefix(k, i, z);
    }
    hide Token, OccursAt;
    assert y[..q] == z[..q] == Token(i)[..q];
    assert (t + y)[..|t|] == t == r[..|t|];
    assert (t + y)[|t|..|t| + q] == y[..q];
    assert TokenCutOff(t + y, r, |t|, |t| + q, i);
  }

  lemma StrayBehindToken(y: string, rest: string, i: nat, q: int, k: nat)
    requires Strays(y, Token(i) + rest, q, k) && q >= |Token(i)|
    ensures Token(i) <= y && Strays(y[|Token(i)|..], rest, q - |Token(i)|, k)
  {
    hide Token;
    var t := Token(i);
    var z := t + rest;
    OccursInTail(t, rest, Token(k), q - |t|);
    hide OccursAt;
    assert y[..|t|] == y[..q][..|t|] == z[..q][..|t|] == t;
    assert y[|t|..][..q - |t|] == y[..q][|t|..] == z[..q][|t|..] == rest[..q - |t|];
    assert z[q] == rest[q - |t|];
  }

  lemma StrayBehindChar(y: string, c: char, rest: string, q: int, k: nat)
    requires Strays(y, [c] + rest, q, k) && q >= 1
    ensures y[0] == c && Strays(y[1..], rest, q - 1, k)
  {
    hide Token;
    var z := [c] + rest;
    OccursInTail([c], rest, Token(k), q - 1);
    hide OccursAt;
    assert y[0] == y[..q][0] == z[..q][0] == c;
    assert y[1..][..q - 1] == y[..q][1..] == z[..q][1..] == rest[..q - 1];
    assert z[q] == rest[q - 1];
  }

  lemma SqlLiteralQuotes(s: string)
    requires s != [] && IsQuote(s[0]) && LiteralLength(s) > 0
    ensures var lit := SqlLiteral(s[..LiteralLength(s)]); lit != [] && IsQuote(lit[0])
  {
  }

  /** The next literal's token is replaced first where it stands, or too early. */
  lemma ReplaceNext(t: string, y: string, r: string, i: nat, lit: string)
    requires t <= r && lit != [] && IsQuote(lit[0])
    ensures Spoiled(Replace(t + Token(i) + y, Token(i), lit), r)
         || Replace(t + Token(i) + y, Token(i), lit) == t + lit + Replace(y, Token(i), lit)
  {
    hide Token, Replace, OccursAt, Spoiled;
    var all := t + Token(i) + y;
    if o :| 0 <= o < |t| && OccursAt(all, Token(i), o) {
      EarlyToken(t, all, r, i, lit, o);
    } else {
      ReplaceFirst(t, y, Token(i), lit);
    }
  }

  /** A stray text is never restored. */
  lemma {:induction false} StrayFails(t: string, y: string, s: string, i: nat, q: int, k: nat)
    requires Strays(y, Protect(s, i), q, k) && k < i
    ensures RestoredFrom(t + y, i, Literals(s)) != t + Requote(s)
    decreases |s|
  {
    hide Replace, Token, SqlLiteral, RestoredFrom, Protect, Requote, Literals, LiteralLength, OccursAt, Spoiled;
    LiteralsStartWithQuotes(s);
    var r := t + Requote(s);
    if s == [] || (IsQuote(s[0]) && LiteralLength(s) == 0) {
      UnfoldRest(s, i);
      StrayText(t, y, s, [], q);
      assert t + s + [] == r;
      SpoiledForGood(t + y, r, i, []);
    } else if !IsQuote(s[0]) {
      var c := [s[0]];
      UnfoldText(s, i);
      if q >= 1 {
        StrayBehindChar(y, s[0], Protect(s[1..], i), q, k);
        StrayFails(t + c, y[1..], s[1..], i, q - 1, k);
        assert t + c + y[1..] == t + y && t + c + Requote(s[1..]) == r;
      } else {
        StrayText(t, y, Requote(s), [], 0);
        assert t + Requote(s) + [] == r;
        SpoiledForGood(t + y, r, i, Literals(s));
      }
    } else {
      StrayLiteral(t, y, s, i, q, k);
    }
  }

  lemma {:induction false} StrayLiteral(t: string, y: string, s: string, i: nat, q: int, k: nat)
    requires s != [] && IsQuote(s[0]) && LiteralLength(s) > 0 && Strays(y, Protect(s, i), q, k) && k < i
    ensures RestoredFrom(t + y, i, Literals(s)) != t + Requote(s)
    decreases |s|, 0
  {
    hide Replace, Token, SqlLiteral, RestoredFrom, Protect, Requote, Literals, LiteralLength, OccursAt, Spoiled, Strays;
    LiteralsStartWithQuotes(s);
    SqlLiteralQuotes(s);
    UnfoldLiteral(s, i);
    var n := LiteralLength(s);
    var lit, rest, r := SqlLiteral(s[..n]), s[n..], t + Requote(s);
    if q < |Token(i)| {
      StrayToken(t, y, Protect(rest, i + 1), i, q, k, r);
      SpoiledForGood(t + y, r, i, Literals(s));
    } else {
      StrayBehindToken(y, Protect(rest, i + 1), i, q, k);
      var behind := y[|Token(i)|..];
      assert t + y == t + Token(i) + behind;
      assert r == t + lit + Requote(rest);
      LiteralsStartWithQuotes(rest);
      RestoredFromNext(t + y, i, s[..n], Literals(rest));
      ReplaceNext(t, behind, r, i, lit);
      if Spoiled(Replace(t + y, Token(i), lit), r) {
        SpoiledForGood(Replace(t + y, Token(i), lit), r, i + 1, Literals(rest));
      } else {
        StraysOn(behind, Protect(rest, i + 1), q - |Token(i)|, k, i, lit);
        var q', k' :| (k' == k || k' == i) && Strays(Replace(behind, Token(i), lit), Protect(rest, i + 1), q', k');
        StrayFails(t + lit, Replace(behind, Token(i), lit), rest, i + 1, q', k');
      }
    }
  }

  lemma MistakenToken(t: string, s: string, i: nat)
    requires s != [] && IsQuote(s[0]) && LiteralLength(s) > 0
    requires !OnlyOwnToken(t, Protect(s[LiteralLength(s)..], i + 1), i)
    ensures var n := LiteralLength(s);
      RestoredFrom(Replace(t + Token(i) + Protect(s[n..], i + 1), Token(i), SqlLiteral(s[..n])), i + 1,
                   Literals(s[n..]))
        != t + SqlLiteral(s[..n]) + Requote(s[n..])
  {
    hide Replace, Token, SqlLiteral, RestoredFrom, Protect, Requote, Literals, LiteralLength, OccursAt, Spoiled, Strays;
    var n := LiteralLength(s);
    var lit, rest := SqlLiteral(s[..n]), s[n..];
    var behind, r := Protect(rest, i + 1), t + lit + Requote(rest);
    SqlLiteralQuotes(s);
    LiteralsStartWithQuotes(rest);
    if o :| 0 <= o < |t| && OccursAt(t + Token(i), Token(i), o) {
      OccursInPrefix(t + Token(i), t + Token(i) + behind, i, o, |t| + |Token(i)|);
      EarlyToken(t, t + Token(i) + behind, r, i, lit, o);
      SpoiledForGood(Replace(t + Token(i) + behind, Token(i), lit), r, i + 1, Literals(rest));
    } else {
      var o :| OccursAt(behind, Token(i), o);
      ReplaceNext(t, behind, r, i, lit);
      if Spoiled(Replace(t + Token(i) + behind, Token(i), lit), r) {
        SpoiledForGood(Replace(t + Token(i) + behind, Token(i), lit), r, i + 1, Literals(rest));
      } else {
        GoesAstray(behind, i, o, lit);
        var q :| Strays(Replace(behind, Token(i), lit), behind, q, i);
        StrayFails(t + lit, Replace(behind, Token(i), lit), rest, i + 1, q, i);
      }
    }
  }

  /** If some token is met out of its place, the text is not restored. */
  lemma {:induction false} MistakenFails(t: string, s: string, i: nat)
    requires !Unmistakable(t, s, i)
    ensures RestoredFrom(t + Protect(s, i), i, Literals(s)) != t + Requote(s)
    decreases |s|
  {
    hide Replace, Token, SqlLiteral, RestoredFrom, Protect, Requote, Literals, LiteralLength, OnlyOwnToken;
    if !IsQuote(s[0]) {
      var c := [s[0]];
      UnfoldText(s, i);
      MistakenFails(t + c, s[1..], i);
      assert t + (c + Protect(s[1..], i)) == t + c + Protect(s[1..], i);
      assert t + (c + Requote(s[1..])) == t + c + Requote(s[1..]);
    } else {
      var n := LiteralLength(s);
      var lit, rest := SqlLiteral(s[..n]), s[n..];
      UnfoldLiteral(s, i);
      RestoredFromNext(t + Protect(s, i), i, s[..n], Literals(rest));
      assert t + (Token(i) + Protect(rest, i + 1)) == t + Token(i) + Protect(rest, i + 1);
      assert t + (lit + Requote(rest)) == t + lit + Requote(rest);
      if OnlyOwnToken(t, Protect(rest, i + 1), i) {
        RestoreOne(t, Protect(rest, i + 1), i, lit);
        MistakenFails(t + lit, rest, i + 1);
      } else {
        MistakenToken(t, s, i);
      }
    }
  }

  // ---------- The round trip ----------

  lemma {:induction false} RequoteSame(s: string)
    ensures SameButQuotes(s, Requote(s))
    decreases |s|
  {
    if s == [] {
    } else {
      if !IsQuote(s[0]) {
        RequoteSame(s[1..]);
      } else if LiteralLength(s) > 0 {
        var n := LiteralLength(s);
        RequoteSame(s[n..]);
        SqlLiteralSame(s[..n]);
        assert SameButQuotes(s[..n] + s[n..], SqlLiteral(s[..n]) + Requote(s[n..]));
        assert s[..n] + s[n..] == s;
      }
    }
  }

  /** Restoring the extracted literals gives back the text, with single quotes around every closed
      double-quoted literal, exactly when no token is met out of its own place. */
  lemma RestoreUndoesExtract(input: string)
    ensures Restored(Protect(input, 0), Literals(input)) == Requote(input) <==> Unmistakable([], input, 0)
    ensures SameButQuotes(input, Requote(input))
  {
    assert [] + Requote(input) == Requote(input) && [] + Protect(input, 0) == Protect(input, 0);
    hide Protect, Requote, Literals, Unmistakable, Restored, RestoredFrom;
    if Unmistakable([], input, 0) {
      UnmistakableRestores([], input, 0);
    } else {
      MistakenFails([], input, 0);
    }
    RestoredIsFromStart(Protect(input, 0), Literals(input));
    RequoteSame(input);
  }

  /** It holds when the text has no token start and no literal goes on as a token would. */
  lemma RestorableIsRestored(input: string)
    requires Restorable(input)
    ensures Restored(Protect(input, 0), Literals(input)) == Requote(input)
  {
    assert [] + input == input;
    RestorableIsUnmistakable([], input, 0);
    RestoreUndoesExtract(input);
  }

  /** That is so for every text without a `Q` directly followed by a digit. */
  lemma {:induction false} NoQDigitIsRestorable(s: string)
    requires forall i :: 0 <= i < |s| - 1 && s[i] == 'Q' ==> !IsDigit(s[i + 1])
    ensures Restorable(s)
    decreases |s|
  {
    if s == [] {
    } else {
      var n := if !IsQuote(s[0]) then 1 else if LiteralLength(s) == 0 then |s| else LiteralLength(s);
      forall i | 0 <= i < |s[n..]| - 1 && s[n..][i] == 'Q' ensures !IsDigit(s[n..][i + 1]) {
        assert s[n + i] == 'Q';
      }
      NoQDigitIsRestorable(s[n..]);
    }
  }

  /** With a token text in the input the round trip fails: the input's own token is taken for that
      of the protected literal. */
  lemma TokenTextIsNotRestored()
    ensures Restored(Protect("__Q0__''", 0), Literals("__Q0__''")) != Requote("__Q0__''")
  {
    var a, b := "__Q0__", "''";
    assert a + b == "__Q0__''";
    PlainPrefix(a, b, 0);
    FindIs(b[1..], '\'', 0);
    assert Token(0) == a && b[..2] == b && b[2..] == [];
    assert Literals(b) == [b] && Protect(b, 0) == a;
    assert SqlLiteral(b) == b;
    RestoredIsFromStart(a + a, [b]);
    RestoredFromNext(a + a, 0, b, []);
    NothingToRestore(Replace(a + a, a, b), 1);
    assert [b] + [] == [b];
    assert Replace(a + a, a, b)[0] == '\'';
    assert Requote(a + b)[0] == '_';
  }
}
