/** What requoting changes, read off a scan over the characters alone. */
module QuoteDelimiters {
  import opened Wrappers
  import opened QuotedLiterals
  import opened QuotedRoundTrip

  /** The open quote behind a character. */
  function Step(open: Option<char>, c: char): Option<char> {
    if open.None? then (if IsQuote(c) then Some(c) else None)
    else if c == open.value then None
    else open
  }

  /** The quote that is open before position p. */
  function OpenAt(s: string, p: nat): Option<char>
    requires p <= |s|
  {
    if p == 0 then None else Step(OpenAt(s, p - 1), s[p - 1])
  }

  /** A quote that opens and is closed later on, or that closes the open one. */
  predicate IsDelimiter(s: string, p: nat)
    requires p < |s|
  {
    if OpenAt(s, p).None? then IsQuote(s[p]) && s[p] in s[p + 1..] else OpenAt(s, p) == Some(s[p])
  }

  lemma {:induction false} OpenShifts(s: string, n: nat, p: nat)
    requires n + p <= |s| && OpenAt(s, n) == None
    ensures OpenAt(s, n + p) == OpenAt(s[n..], p)
  {
    if p == 0 {
    } else {
      OpenShifts(s, n, p - 1);
      assert s[n..][p - 1] == s[n + p - 1];
    }
  }

  lemma DelimiterShifts(s: string, n: nat, p: nat)
    requires n + p < |s| && OpenAt(s, n) == None
    ensures IsDelimiter(s, n + p) <==> IsDelimiter(s[n..], p)
  {
    OpenShifts(s, n, p);
    assert s[n..][p] == s[n + p] && s[n..][p + 1..] == s[n + p + 1..];
  }

  /** Behind a quote at the front that quote stays open up to its next occurrence. */
  lemma {:induction false} OpenInside(s: string, p: nat)
    requires 1 <= p <= |s| && IsQuote(s[0]) && forall i :: 1 <= i < p ==> s[i] != s[0]
    ensures OpenAt(s, p) == Some(s[0])
  {
    if p == 1 {
      assert OpenAt(s, 0) == None;
    } else {
      OpenInside(s, p - 1);
    }
  }

  /** The two ends of a closed literal at the front are its delimiters, and no quote is open behind it. */
  lemma LiteralDelimiters(s: string, n: nat)
    requires s != [] && IsQuote(s[0]) && n == LiteralLength(s) && n > 0
    ensures OpenAt(s, n) == None
    ensures forall p: nat :: p < n ==> (IsDelimiter(s, p) <==> p == 0 || p == n - 1)
    ensures s[n - 1] == s[0]
  {
    var k := Find(s[1..], s[0]);
    assert forall i :: 1 <= i < n - 1 ==> s[i] == s[1..][i - 1];
    assert s[n - 1] == s[1..][k];
    forall p: nat | 1 <= p < n ensures OpenAt(s, p) == Some(s[0]) {
      OpenInside(s, p);
    }
    assert s[1..][n - 2] == s[0];
    assert OpenAt(s, 0) == None;
  }

  /** An unclosed quote at the front is no delimiter, and neither is anything behind it. */
  lemma NoDelimiters(s: string, p: nat)
    requires s != [] && IsQuote(s[0]) && LiteralLength(s) == 0 && p < |s|
    ensures !IsDelimiter(s, p)
  {
    var k := Find(s[1..], s[0]);
    assert forall i :: 1 <= i < |s| ==> s[i] == s[1..][i - 1];
    if p > 0 {
      OpenInside(s, p);
    }
  }

  /** `t` is `s` with single quotes for its delimiters. */
  ghost predicate IsRequoted(s: string, t: string) {
    |t| == |s| && forall p: nat :: p < |s| ==> t[p] == if IsDelimiter(s, p) then '\'' else s[p]
  }

  lemma RequotedBehind(s: string, n: nat, front: string, t: string)
    requires n <= |s| && |front| == n && OpenAt(s, n) == None && IsRequoted(s[n..], t)
    requires forall p: nat :: p < n ==> front[p] == if IsDelimiter(s, p) then '\'' else s[p]
    ensures IsRequoted(s, front + t)
  {
    hide IsDelimiter;
    forall p: nat | n <= p < |s| ensures (front + t)[p] == if IsDelimiter(s, p) then '\'' else s[p] {
      DelimiterShifts(s, n, p - n);
    }
  }

  lemma SqlLiteralChars(lit: string)
    requires |lit| >= 2 && IsQuote(lit[0]) && lit[|lit| - 1] == lit[0]
    ensures |SqlLiteral(lit)| == |lit|
    ensures forall p :: 0 <= p < |lit| ==>
      SqlLiteral(lit)[p] == if p == 0 || p == |lit| - 1 then '\'' else lit[p]
  {
  }

  lemma NothingRequoted(s: string)
    requires forall p: nat :: p < |s| ==> !IsDelimiter(s, p)
    ensures IsRequoted(s, s)
  {
  }

  lemma PlainStart(s: string)
    requires s != [] && !IsQuote(s[0])
    ensures OpenAt(s, 0) == None && !IsDelimiter(s, 0)
  {
  }

  /** The restored form of a text differs from it in the delimiters of its closed literals only: these are
      single quotes. */
  lemma {:induction false} RequoteChangesDelimiters(s: string)
    ensures IsRequoted(s, Requote(s))
    decreases |s|
  {
    hide IsDelimiter, SqlLiteral, LiteralLength, IsRequoted, Requote;
    if s == [] {
      UnfoldRest(s, 0);
      NothingRequoted(s);
    } else if !IsQuote(s[0]) {
      UnfoldText(s, 0);
      RequoteChangesDelimiters(s[1..]);
      PlainStart(s);
      RequotedBehind(s, 1, [s[0]], Requote(s[1..]));
    } else if LiteralLength(s) > 0 {
      var n := LiteralLength(s);
      UnfoldLiteral(s, 0);
      LiteralDelimiters(s, n);
      SqlLiteralChars(s[..n]);
      RequoteChangesDelimiters(s[n..]);
      RequotedBehind(s, n, SqlLiteral(s[..n]), Requote(s[n..]));
    } else {
      UnfoldRest(s, 0);
      forall p: nat | p < |s| ensures !IsDelimiter(s, p) {
        NoDelimiters(s, p);
      }
      NothingRequoted(s);
    }
  }

  lemma RequotedUnique(s: string, t: string, u: string)
    requires IsRequoted(s, t) && IsRequoted(s, u)
    ensures t == u
  {
  }

  /** Extracting the literals of a text and restoring them changes exactly the delimiters, to single quotes,
      exactly when no token is met out of its own place. */
  lemma RestoringRequotes(input: string)
    ensures IsRequoted(input, Restored(Protect(input, 0), Literals(input))) <==> Unmistakable([], input, 0)
    ensures Restorable(input) ==> IsRequoted(input, Restored(Protect(input, 0), Literals(input)))
  {
    hide IsRequoted, Restored, Protect, Literals, Unmistakable, Requote, Restorable;
    RequoteChangesDelimiters(input);
    RestoreUndoesExtract(input);
    if IsRequoted(input, Restored(Protect(input, 0), Literals(input))) {
      RequotedUnique(input, Requote(input), Restored(Protect(input, 0), Literals(input)));
    }
    if Restorable(input) {
      RestorableIsRestored(input);
    }
  }
}
