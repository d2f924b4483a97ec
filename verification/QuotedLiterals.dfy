/** Protecting quoted literals from the rewriting of row filters, and restoring them. */
module QuotedLiterals {
  import opened Decimal

  predicate IsQuote(c: char) { c == '"' || c == '\'' }

  /** `__Qi__`. */
  function Token(i: nat): (t: string)
    ensures t != []
  {
    "__Q" + ToString(i) + "__"
  }

  // ---------- The reference: closed literals of a text ----------

  /** Position of the first `q` in `s`, or |s|. */
  function Find(s: string, q: char): (k: nat)
    ensures k <= |s|
    ensures forall i :: 0 <= i < k ==> s[i] != q
    ensures k < |s| ==> s[k] == q
  {
    if s == [] || s[0] == q then 0 else 1 + Find(s[1..], q)
  }

  /** A closed literal starts at the front of `s`; its length, quotes included. */
  function LiteralLength(s: string): (n: nat)
    requires s != [] && IsQuote(s[0])
    ensures n == 0 || 2 <= n <= |s|
  {
    var k := Find(s[1..], s[0]);
    if k == |s| - 1 then 0 else k + 2
  }

  /** The SQL form of a literal: double quotes become single quotes. */
  function SqlLiteral(lit: string): string {
    if |lit| >= 2 && lit[0] == '"' && lit[|lit| - 1] == '"' then "'" + lit[1..|lit| - 1] + "'" else lit
  }

  /** The text with the delimiters of its closed double-quoted literals changed to single quotes; an
      unclosed quote ends the scan. */
  function Requote(s: string): string {
    if s == [] then []
    else if !IsQuote(s[0]) then [s[0]] + Requote(s[1..])
    else
      var n := LiteralLength(s);
      if n == 0 then s else SqlLiteral(s[..n]) + Requote(s[n..])
  }

  /** The text with its closed literals replaced by tokens, numbered from `i`. */
  function Protect(s: string, i: nat): string {
    if s == [] then []
    else if !IsQuote(s[0]) then [s[0]] + Protect(s[1..], i)
    else
      var n := LiteralLength(s);
      if n == 0 then s else Token(i) + Protect(s[n..], i + 1)
  }

  /** The closed literals of the text, in order. */
  function Literals(s: string): seq<string> {
    if s == [] then []
    else if !IsQuote(s[0]) then Literals(s[1..])
    else
      var n := LiteralLength(s);
      if n == 0 then [] else [s[..n]] + Literals(s[n..])
  }

  lemma UnfoldText(s: string, i: nat)
    requires s != [] && !IsQuote(s[0])
    ensures Protect(s, i) == [s[0]] + Protect(s[1..], i)
    ensures Literals(s) == Literals(s[1..]) && Requote(s) == [s[0]] + Requote(s[1..])
  {
  }

  lemma UnfoldLiteral(s: string, i: nat)
    requires s != [] && IsQuote(s[0]) && LiteralLength(s) > 0
    ensures var n := LiteralLength(s);
      && Protect(s, i) == Token(i) + Protect(s[n..], i + 1)
      && Literals(s) == [s[..n]] + Literals(s[n..])
      && Requote(s) == SqlLiteral(s[..n]) + Requote(s[n..])
  {
    hide Token, SqlLiteral;
  }

  lemma UnfoldRest(s: string, i: nat)
    requires s == [] || (IsQuote(s[0]) && LiteralLength(s) == 0)
    ensures Protect(s, i) == s && Literals(s) == [] && Requote(s) == s
  {
  }

  // ---------- Extraction ----------

  lemma {:induction false} PlainPrefix(a: string, s: string, i: nat)
    requires forall j :: 0 <= j < |a| ==> !IsQuote(a[j])
    ensures Protect(a + s, i) == a + Protect(s, i) && Literals(a + s) == Literals(s)
  {
    if a == [] {
      assert a + s == s;
    } else {
      assert (a + s)[1..] == a[1..] + s && (a + s)[0] == a[0];
      PlainPrefix(a[1..], s, i);
      assert [a[0]] + (a[1..] + Protect(s, i)) == a + Protect(s, i);
    }
  }

  lemma FindIs(s: string, q: char, k: nat)
    requires k <= |s| && (forall i :: 0 <= i < k ==> s[i] != q) && (k < |s| ==> s[k] == q)
    ensures Find(s, q) == k
  {
  }

  /** What the scan has done with the first part of the input: the result so far, followed by the
      protection of what is still in `current` and of `rest`, is that of the whole input. */
  ghost predicate Scanned(input: string, protected: string, literals: seq<string>, pending: string) {
    && Protect(input, 0) == protected + Protect(pending, |literals|)
    && Literals(input) == literals + Literals(pending)
  }

  /** `current` holds text outside quotes, or an open quote and what follows it. */
  ghost predicate CurrentIs(current: string, inQuote: bool, quoteChar: char) {
    if inQuote then
      current != [] && current[0] == quoteChar && IsQuote(quoteChar) && forall j :: 1 <= j < |current| ==>
        current[j] != quoteChar
    else
      forall j :: 0 <= j < |current| ==> !IsQuote(current[j])
  }

  lemma ScanText(input: string, protected: string, literals: seq<string>, current: string, rest: string)
    requires Scanned(input, protected, literals, current + rest) && CurrentIs(current, false, ' ')
    ensures Scanned(input, protected + current, literals, rest)
  {
    PlainPrefix(current, rest, |literals|);
    assert protected + (current + Protect(rest, |literals|)) == (protected + current) + Protect(rest, |literals|);
  }

  lemma ClosedLiteral(current: string, ch: char, rest: string)
    requires CurrentIs(current, true, ch)
    ensures var s := current + [ch] + rest;
      LiteralLength(s) == |current| + 1 && s[..|current| + 1] == current + [ch] && s[|current| + 1..] == rest
  {
    var s := current + [ch] + rest;
    assert s[0] == ch;
    forall i | 0 <= i < |current| - 1 ensures s[1..][i] != ch {
      assert s[1..][i] == current[i + 1];
    }
    FindIs(s[1..], ch, |current| - 1);
  }

  lemma ScanLiteral(input: string, protected: string, literals: seq<string>, current: string, ch: char, rest: string)
    requires Scanned(input, protected, literals, current + [ch] + rest) && CurrentIs(current, true, ch)
    ensures Scanned(input, protected + Token(|literals|), literals + [current + [ch]], rest)
  {
    ClosedLiteral(current, ch, rest);
    var s := current + [ch] + rest;
    hide LiteralLength, Token;
    assert s[0] == ch;
    assert Protect(s, |literals|) == Token(|literals|) + Protect(rest, |literals| + 1);
    assert Literals(s) == [current + [ch]] + Literals(rest);
    hide Protect, Literals;
    assert protected + (Token(|literals|) + Protect(rest, |literals| + 1))
      == protected + Token(|literals|) + Protect(rest, |literals| + 1);
    assert literals + ([current + [ch]] + Literals(rest)) == literals + [current + [ch]] + Literals(rest);
  }

  lemma ScanEnd(input: string, protected: string, literals: seq<string>, current: string, inQuote: bool,
                quoteChar: char)
    requires Scanned(input, protected, literals, current) && CurrentIs(current, inQuote, quoteChar)
    ensures Protect(input, 0) == protected + current && Literals(input) == literals
  {
    if inQuote {
      assert forall i :: 0 <= i < |current| - 1 ==> current[1..][i] == current[i + 1];
      FindIs(current[1..], quoteChar, |current| - 1);
      assert LiteralLength(current) == 0;
    } else {
      assert current + [] == current;
      PlainPrefix(current, [], |literals|);
    }
  }

  /** Replaces the closed literals by tokens in one pass over the characters. */
  method ExtractQuotedLiterals(input: string) returns (protected: string, literals: seq<string>)
    ensures protected == Protect(input, 0) && literals == Literals(input)
  {
    hide Protect, Literals, Token;
    protected, literals := [], [];
    var current: string := [];
    var inQuote, quoteChar := false, ' ';
    assert current + input[0..] == input;
    assert Scanned(input, [], [], input);
    for i := 0 to |input|
      invariant Scanned(input, protected, literals, current + input[i..])
      invariant CurrentIs(current, inQuote, quoteChar)
    {
      var ch := input[i];
      assert input[i..] == [ch] + input[i + 1..];
      if IsQuote(ch) && !inQuote {
        ScanText(input, protected, literals, current, input[i..]);
        if current != [] {
          protected := protected + current;
        } else {
          assert protected + current == protected;
        }
        current := [ch];
        inQuote, quoteChar := true, ch;
      } else if inQuote && ch == quoteChar {
        assert current + ([ch] + input[i + 1..]) == current + [ch] + input[i + 1..];
        ScanLiteral(input, protected, literals, current, ch, input[i + 1..]);
        current := current + [ch];
        protected := protected + Token(|literals|);
        literals := literals + [current];
        current := [];
        inQuote := false;
        assert current + input[i + 1..] == input[i + 1..];
      } else {
        assert current + ([ch] + input[i + 1..]) == current + [ch] + input[i + 1..];
        current := current + [ch];
      }
    }
    assert current + input[|input|..] == current;
    ScanEnd(input, protected, literals, current, inQuote, quoteChar);
    protected := protected + current;
  }

  // ---------- Restoring ----------

  /** `str::replace`: every occurrence, from the left, without overlap. */
  function Replace(s: string, token: string, repl: string): string
    requires token != []
  {
    if |s| < |token| then s
    else if token <= s then repl + Replace(s[|token|..], token, repl)
    else [s[0]] + Replace(s[1..], token, repl)
  }

  /** Puts the SQL forms of the literals back in place of their tokens, one literal after the other. */
  function Restored(s: string, literals: seq<string>): string {
    if literals == [] then s
    else Replace(Restored(s, literals[..|literals| - 1]), Token(|literals| - 1), SqlLiteral(literals[|literals| - 1]))
  }

  method RestoreQuotedLiterals(input: string, literals: seq<string>) returns (output: string)
    ensures output == Restored(input, literals)
  {
    hide Token, Replace, SqlLiteral;
    output := input;
    for idx := 0 to |literals|
      invariant output == Restored(input, literals[..idx])
    {
      assert literals[..idx + 1][..idx] == literals[..idx];
      output := Replace(output, Token(idx), SqlLiteral(literals[idx]));
    }
    assert literals[..|literals|] == literals;
  }

  /** The text has `__Q` and a digit at position i. */
  predicate TokenStart(s: string, i: int) {
    0 <= i && i + 3 < |s| && s[i] == '_' && s[i + 1] == '_' && s[i + 2] == 'Q' && IsDigit(s[i + 3])
  }

  predicate NoTokenStart(s: string) {
    forall i :: 0 <= i < |s| ==> !TokenStart(s, i)
  }

  /** The text does not go on with `Qd` or `_Qd`, which would look like a token behind a token. */
  predicate FollowsSafely(s: string) {
    && !(|s| >= 2 && s[0] == 'Q' && IsDigit(s[1]))
    && !(|s| >= 3 && s[0] == '_' && s[1] == 'Q' && IsDigit(s[2]))
  }

  /** No closed literal is directly followed by `Qd` or `_Qd`. */
  predicate LiteralsFollowedSafely(s: string) {
    if s == [] then true
    else if !IsQuote(s[0]) then LiteralsFollowedSafely(s[1..])
    else
      var n := LiteralLength(s);
      n == 0 || (FollowsSafely(s[n..]) && LiteralsFollowedSafely(s[n..]))
  }

  /** Nothing in the text can be mistaken for a token. */
  predicate Restorable(s: string) { NoTokenStart(s) && LiteralsFollowedSafely(s) }

  /** The token occurs at position p. */
  predicate OccursAt(s: string, token: string, p: int) {
    0 <= p && p + |token| <= |s| && s[p..p + |token|] == token
  }

  lemma TokenShape(i: nat)
    ensures var t := Token(i);
      && |t| >= 6 && t[0] == '_' && t[1] == '_' && t[2] == 'Q' && IsDigit(t[3])
      && t[|t| - 1] == '_' && t[|t| - 2] == '_'
      && t[3..|t| - 2] == ToString(i)
      && (forall k :: 3 <= k < |t| - 2 ==> IsDigit(t[k]))
  {
    var t, d := Token(i), ToString(i);
    hide ToString;
    assert t == "__Q" + d + "__";
    assert t[3..|t| - 2] == d;
    forall k | 3 <= k < |t| - 2 ensures IsDigit(t[k]) {
      assert t[k] == d[k - 3];
    }
  }

  lemma OccurrenceStarts(s: string, i: nat, p: int)
    requires OccursAt(s, Token(i), p)
    ensures TokenStart(s, p)
  {
    TokenShape(i);
    var t := Token(i);
    assert s[p..p + |t|][0] == t[0] && s[p..p + |t|][1] == t[1] && s[p..p + |t|][2] == t[2] && s[p..p + |t|][3] == t[3];
  }

  lemma {:induction false} ReplaceNone(s: string, token: string, repl: string)
    requires token != [] && forall p :: !OccursAt(s, token, p)
    ensures Replace(s, token, repl) == s
  {
    if |s| < |token| {
    } else {
      assert token <= s ==> OccursAt(s, token, 0);
      forall p ensures !OccursAt(s[1..], token, p) {
        if OccursAt(s[1..], token, p) {
          assert s[1..][p..p + |token|] == s[p + 1..p + 1 + |token|];
          assert OccursAt(s, token, p + 1);
        }
      }
      ReplaceNone(s[1..], token, repl);
    }
  }

  /** Replacing acts on the first occurrence and then on what follows it. */
  lemma {:induction false} ReplaceFirst(a: string, rest: string, token: string, repl: string)
    requires token != [] && forall p :: 0 <= p < |a| ==> !OccursAt(a + token + rest, token, p)
    ensures Replace(a + token + rest, token, repl) == a + repl + Replace(rest, token, repl)
  {
    var s := a + token + rest;
    if a == [] {
      assert s == token + rest;
      assert s[|token|..] == rest;
      assert [] + repl == repl;
    } else {
      assert !OccursAt(s, token, 0);
      assert s[1..] == a[1..] + token + rest;
      forall p | 0 <= p < |a[1..]| ensures !OccursAt(a[1..] + token + rest, token, p) {
        if OccursAt(s[1..], token, p) {
          assert s[1..][p..p + |token|] == s[p + 1..p + 1 + |token|];
          assert OccursAt(s, token, p + 1);
        }
      }
      ReplaceFirst(a[1..], rest, token, repl);
      assert [a[0]] + (a[1..] + repl + Replace(rest, token, repl)) == a + repl + Replace(rest, token, repl);
    }
  }

  // ---------- Tokens in a protected text ----------

  lemma RestorableSuffix(s: string, n: nat)
    requires NoTokenStart(s) && n <= |s|
    ensures NoTokenStart(s[n..])
  {
    forall i | 0 <= i < |s[n..]| ensures !TokenStart(s[n..], i) {
      assert !TokenStart(s, n + i);
    }
  }

  /** A protected text starts with a token, or with the first character of the text. */
  lemma ProtectFront(s: string, j: nat)
    requires s != []
    ensures !IsQuote(s[0]) ==> Protect(s, j) == [s[0]] + Protect(s[1..], j)
    ensures IsQuote(s[0]) ==> |Protect(s, j)| >= 1 && !IsDigit(Protect(s, j)[0]) && Protect(s, j)[0] != 'Q'
    ensures IsQuote(s[0]) && |Protect(s, j)| >= 2 && Protect(s, j)[0] == '_' ==> Protect(s, j)[1] == '_'
  {
    if IsQuote(s[0]) && LiteralLength(s) > 0 {
      TokenShape(j);
      var rest := Protect(s[LiteralLength(s)..], j + 1);
      assert (Token(j) + rest)[0] == Token(j)[0] && (Token(j) + rest)[1] == Token(j)[1];
    }
  }

  /** What looks like the end of a token start at the front of a protected text is in the text. */
  lemma FrontIsText(s: string, j: nat)
    ensures FollowsSafely(s) ==> FollowsSafely(Protect(s, j))
  {
    var r := Protect(s, j);
    if s != [] {
      ProtectFront(s, j);
      if |s| > 1 {
        ProtectFront(s[1..], j);
        if |s| > 2 {
          ProtectFront(s[2..], j);
          assert s[1..][1..] == s[2..];
        }
      }
    }
  }

  lemma OccursInTail(a: string, r: string, token: string, p: int)
    ensures OccursAt(a + r, token, p + |a|) && p >= 0 <==> OccursAt(r, token, p)
  {
    if 0 <= p && p + |token| <= |r| {
      assert (a + r)[p + |a|..p + |a| + |token|] == r[p..p + |token|];
    }
  }

  lemma PlainOccurrence(s: string, j: nat, i: nat, p: int)
    requires NoTokenStart(s) && s != [] && !IsQuote(s[0]) && OccursAt(Protect(s, j), Token(i), p)
    ensures OccursAt(Protect(s[1..], j), Token(i), p - 1)
  {
    var r := Protect(s[1..], j);
    assert Protect(s, j) == [s[0]] + r;
    hide Protect, Token;
    OccurrenceStarts([s[0]] + r, i, p);
    FrontIsText(s[1..], j);
    assert !TokenStart(s, 0);
    assert p != 0;
    OccursInTail([s[0]], r, Token(i), p - 1);
  }

  /** Two tokens at the same place are the same token. */
  lemma TokenPrefix(i: nat, j: nat, all: string)
    requires Token(i) <= all && Token(j) <= all
    ensures i == j
  {
    var a, b := ToString(i), ToString(j);
    hide ToString;
    assert Token(i) == "__Q" + a + "__" && Token(j) == "__Q" + b + "__";
    assert Token(i)[3..|a| + 4] == a + ['_'] && Token(j)[3..|b| + 4] == b + ['_'];
    assert all[3..][..|a| + 1] == Token(i)[3..|a| + 4];
    assert all[3..][..|b| + 1] == Token(j)[3..|b| + 4];
    NumeralPrefix(a, b, '_', all[3..]);
    ToStringInjective(i, j);
  }

  /** At the front of a token only that token occurs. */
  lemma OccurrenceAtFront(r: string, j: nat, i: nat)
    requires OccursAt(Token(j) + r, Token(i), 0)
    ensures i == j
  {
    hide Token;
    var all := Token(j) + r;
    assert all[0..|Token(i)|] == all[..|Token(i)|] && all[..|Token(j)|] == Token(j);
    TokenPrefix(i, j, all);
  }

  /** No token starts inside a token that is followed safely. */
  lemma OccurrenceBehindToken(r: string, j: nat, i: nat, p: int)
    requires FollowsSafely(r) && OccursAt(Token(j) + r, Token(i), p) && p != 0
    ensures OccursAt(r, Token(i), p - |Token(j)|)
  {
    var t := Token(j);
    OccurrenceStarts(t + r, i, p);
    TokenShape(j);
    hide Token, OccursAt;
    assert forall k :: 0 <= k < |t| ==> (t + r)[k] == t[k];
    assert forall k :: |t| <= k < |t| + |r| ==> (t + r)[k] == r[k - |t|];
    assert p >= |t|;
    OccursInTail(t, r, Token(i), p - |t|);
  }

  lemma LiteralOccurrence(s: string, j: nat, i: nat, p: int)
    requires s != [] && IsQuote(s[0]) && LiteralLength(s) > 0 && FollowsSafely(s[LiteralLength(s)..])
    requires OccursAt(Protect(s, j), Token(i), p)
    ensures (p == 0 && i == j) || OccursAt(Protect(s[LiteralLength(s)..], j + 1), Token(i), p - |Token(j)|)
  {
    hide Token, OccursAt, FollowsSafely;
    UnfoldLiteral(s, j);
    var r := Protect(s[LiteralLength(s)..], j + 1);
    hide Protect, LiteralLength;
    FrontIsText(s[LiteralLength(s)..], j + 1);
    if p == 0 {
      OccurrenceAtFront(r, j, i);
    } else {
      OccurrenceBehindToken(r, j, i, p);
    }
  }

  /** Where a token can occur in a protected text: at the front, if that is its own place, or in the
      rest. */
  lemma OccurrenceInProtected(s: string, j: nat, i: nat, p: int)
    requires Restorable(s) && OccursAt(Protect(s, j), Token(i), p)
    ensures s != []
    ensures !IsQuote(s[0]) ==> OccursAt(Protect(s[1..], j), Token(i), p - 1)
    ensures IsQuote(s[0]) ==> LiteralLength(s) > 0
    ensures IsQuote(s[0]) ==>
      (p == 0 && i == j) || OccursAt(Protect(s[LiteralLength(s)..], j + 1), Token(i), p - |Token(j)|)
  {
    OccurrenceStarts(Protect(s, j), i, p);
    if !IsQuote(s[0]) {
      PlainOccurrence(s, j, i, p);
    } else {
      var n := LiteralLength(s);
      if n > 0 {
        LiteralOccurrence(s, j, i, p);
      }
    }
  }

  /** Where token number `i` stands in the protected text. */
  function TokenPosition(s: string, j: nat, i: nat): nat {
    if s == [] then 0
    else if !IsQuote(s[0]) then 1 + TokenPosition(s[1..], j, i)
    else
      var n := LiteralLength(s);
      if n == 0 || i == j then 0 else |Token(j)| + TokenPosition(s[n..], j + 1, i)
  }

  lemma FrontToken(j: nat, r: string)
    ensures OccursAt(Token(j) + r, Token(j), 0)
  {
    assert (Token(j) + r)[0..0 + |Token(j)|] == Token(j);
  }

  lemma TokensBehindToken(r: string, j: nat, i: nat, p: int, m: nat, q: nat)
    requires OccursAt(r, Token(i), p - |Token(j)|) <==> j + 1 <= i < j + 1 + m && p - |Token(j)| == q
    requires OccursAt(Token(j) + r, Token(i), p) ==> (p == 0 && i == j) || OccursAt(r, Token(i), p - |Token(j)|)
    ensures OccursAt(Token(j) + r, Token(i), p) <==> j <= i < j + 1 + m && p == if i == j then 0 else |Token(j)| + q
  {
    hide OccursAt, Token;
    OccursInTail(Token(j), r, Token(i), p - |Token(j)|);
    FrontToken(j, r);
  }

  lemma TokensOfLiteral(s: string, j: nat, i: nat, p: int)
    requires s != [] && IsQuote(s[0]) && LiteralLength(s) > 0 && LiteralsFollowedSafely(s)
    requires var rest := s[LiteralLength(s)..];
      OccursAt(Protect(rest, j + 1), Token(i), p - |Token(j)|) <==>
        (j + 1 <= i < j + 1 + |Literals(rest)| && p - |Token(j)| == TokenPosition(rest, j + 1, i))
    ensures OccursAt(Protect(s, j), Token(i), p) <==> j <= i < j + |Literals(s)| && p == TokenPosition(s, j, i)
  {
    hide OccursAt, Token, Protect, Literals, LiteralLength, FollowsSafely;
    var rest := s[LiteralLength(s)..];
    assert FollowsSafely(rest);
    assert TokenPosition(s, j, i) == if i == j then 0 else |Token(j)| + TokenPosition(rest, j + 1, i);
    hide LiteralsFollowedSafely, TokenPosition;
    UnfoldLiteral(s, j);
    if OccursAt(Protect(s, j), Token(i), p) {
      LiteralOccurrence(s, j, i, p);
    }
    TokensBehindToken(Protect(rest, j + 1), j, i, p, |Literals(rest)|, TokenPosition(rest, j + 1, i));
  }

  /** Each token occurs exactly once in the protected text; tokens of other numbers do not occur. */
  lemma {:induction false} TokensOccurOnce(s: string, j: nat, i: nat, p: int)
    requires Restorable(s)
    ensures OccursAt(Protect(s, j), Token(i), p) <==> j <= i < j + |Literals(s)| && p == TokenPosition(s, j, i)
    decreases |s|
  {
    hide OccursAt, Token, Protect, Literals, LiteralLength, NoTokenStart, FollowsSafely;
    if OccursAt(Protect(s, j), Token(i), p) {
      OccurrenceInProtected(s, j, i, p);
    }
    if s == [] {
      UnfoldRest(s, j);
    } else if !IsQuote(s[0]) {
      UnfoldText(s, j);
      RestorableSuffix(s, 1);
      TokensOccurOnce(s[1..], j, i, p - 1);
      OccursInTail([s[0]], Protect(s[1..], j), Token(i), p - 1);
    } else if LiteralLength(s) > 0 {
      var rest := s[LiteralLength(s)..];
      assert LiteralsFollowedSafely(rest);
      hide LiteralsFollowedSafely, TokenPosition;
      RestorableSuffix(s, LiteralLength(s));
      TokensOccurOnce(rest, j + 1, i, p - |Token(j)|);
      TokensOfLiteral(s, j, i, p);
    } else {
      UnfoldRest(s, j);
    }
  }

  /** The tokens stand in the order of their literals. */
  lemma {:induction false} TokensInOrder(s: string, j: nat, i: nat)
    requires j <= i && i + 1 < j + |Literals(s)|
    ensures TokenPosition(s, j, i) < TokenPosition(s, j, i + 1)
    decreases |s|
  {
    hide Token;
    if !IsQuote(s[0]) {
      TokensInOrder(s[1..], j, i);
    } else if i > j {
      TokensInOrder(s[LiteralLength(s)..], j + 1, i);
    }
  }
}
