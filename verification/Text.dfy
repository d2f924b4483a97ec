/** Characters and strings (ASCII). */
module Text {

  function LowerChar(c: char): char {
    if 'A' <= c <= 'Z' then (c as int + 32) as char else c
  }

  /** `to_ascii_lowercase`. */
  function Lower(s: string): string {
    seq(|s|, i requires 0 <= i < |s| => LowerChar(s[i]))
  }

  /** The same character, or one letter in both cases. */
  predicate SameLetter(c: char, d: char) {
    || c == d
    || ('A' <= c <= 'Z' && d as int == c as int + 32)
    || ('A' <= d <= 'Z' && c as int == d as int + 32)
  }

  /** Lower-case forms agree exactly when the texts differ at most in case. */
  lemma LowerIgnoresCase(s: string, t: string)
    ensures Lower(s) == Lower(t) <==> |s| == |t| && forall i :: 0 <= i < |s| ==> SameLetter(s[i], t[i])
  {
    if Lower(s) == Lower(t) {
      forall i | 0 <= i < |s| ensures SameLetter(s[i], t[i]) {
        assert Lower(s)[i] == Lower(t)[i];
      }
    }
  }

  predicate IsBlank(c: char) { c == ' ' || '\t' <= c <= '\r' }

  function TrimStart(s: string): string {
    if s != [] && IsBlank(s[0]) then TrimStart(s[1..]) else s
  }

  function TrimEnd(s: string): string {
    if s != [] && IsBlank(s[|s| - 1]) then TrimEnd(s[..|s| - 1]) else s
  }

  function Trim(s: string): string { TrimEnd(TrimStart(s)) }

  lemma {:induction false} TrimEndLast(s: string)
    ensures TrimEnd(s) == [] || !IsBlank(TrimEnd(s)[|TrimEnd(s)| - 1])
    ensures TrimEnd(s) <= s
  {
    if s == [] || !IsBlank(s[|s| - 1]) {
    } else {
      TrimEndLast(s[..|s| - 1]);
    }
  }

  lemma {:induction false} TrimStartFirst(s: string)
    ensures TrimStart(s) == [] || !IsBlank(TrimStart(s)[0])
  {
    if s == [] || !IsBlank(s[0]) {
    } else {
      TrimStartFirst(s[1..]);
    }
  }

  lemma {:induction false} TrimStartCuts(s: string) returns (i: nat)
    ensures i <= |s| && TrimStart(s) == s[i..] && forall k :: 0 <= k < i ==> IsBlank(s[k])
  {
    if s != [] && IsBlank(s[0]) {
      var j := TrimStartCuts(s[1..]);
      i := j + 1;
      assert forall k :: 0 < k < i ==> s[k] == s[1..][k - 1];
    } else {
      i := 0;
    }
  }

  lemma {:induction false} TrimEndCuts(s: string) returns (j: nat)
    ensures j <= |s| && TrimEnd(s) == s[..j] && forall k :: j <= k < |s| ==> IsBlank(s[k])
  {
    if s != [] && IsBlank(s[|s| - 1]) {
      j := TrimEndCuts(s[..|s| - 1]);
    } else {
      j := |s|;
    }
  }

  /** The characters of `s` from i to j, with no blank at either end. */
  predicate IsCore(s: string, i: nat, j: nat) {
    && i <= j <= |s|
    && (i < j ==> !IsBlank(s[i]) && !IsBlank(s[j - 1]))
    && (forall k :: 0 <= k < i ==> IsBlank(s[k]))
    && (forall k :: j <= k < |s| ==> IsBlank(s[k]))
  }

  /** Trimming removes the blanks at both ends and nothing else. */
  lemma TrimCuts(s: string) returns (i: nat, j: nat)
    ensures IsCore(s, i, j) && Trim(s) == s[i..j]
  {
    i := TrimStartCuts(s);
    var t := TrimStart(s);
    var n := TrimEndCuts(t);
    j := i + n;
    TrimStartFirst(s);
    TrimEndLast(t);
    hide TrimStart, TrimEnd, IsBlank;
    assert forall k :: i <= k < |s| ==> s[k] == t[k - i];
    assert Trim(s) == t[..j - i] == s[i..j];
  }

  /** Trimmed names are trimmed. */
  lemma TrimIdempotent(s: string)
    ensures Trim(Trim(s)) == Trim(s)
  {
    TrimStartFirst(s);
    TrimEndLast(TrimStart(s));
  }
}
