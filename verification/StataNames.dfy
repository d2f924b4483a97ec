/** Turning a column name into a Stata variable name (ASCII names). */
module StataNames {

  predicate IsLetter(c: char) { 'a' <= c <= 'z' || 'A' <= c <= 'Z' }

  predicate IsNameChar(c: char) { IsLetter(c) || '0' <= c <= '9' || c == '_' }

  /** The reserved words that start with a letter. */
  predicate IsReservedWord(s: string) {
    s in {"aggregate", "array", "boolean", "break", "byte", "case", "catch", "class", "colvector", "complex",
          "const", "continue", "default", "delegate", "delete", "do", "double", "else", "eltypedef", "end",
          "enum", "explicit", "export", "external", "float", "for", "friend", "function", "global", "goto",
          "if", "inline", "int", "local", "long", "NULL", "pragma", "protected", "quad", "rowvector",
          "short", "typedef", "typename", "virtual", "str#", "in", "strL", "using", "with"}
  }

  /** The reserved words that start with an underscore. */
  predicate IsReservedUnderscore(s: string) {
    s in {"_all", "_N", "_skip", "_b", "_pi", "_pred", "_coef", "_rc", "_cons", "_se", "_n"}
  }

  predicate IsReserved(s: string) {
    IsReservedWord(s) || IsReservedUnderscore(s)
  }

  /** What Stata accepts as a variable name. */
  predicate IsStataName(s: string) {
    && 1 <= |s| <= 32
    && (forall i :: 0 <= i < |s| ==> IsNameChar(s[i]))
    && (IsLetter(s[0]) || s[0] == '_')
    && !IsReserved(s)
  }

  // ---------- One name ----------

  function Sanitize(s: string): (r: string)
    ensures |r| == |s| && forall i :: 0 <= i < |s| ==> r[i] == if IsNameChar(s[i]) then s[i] else '_'
  {
    if s == "" then "" else [if IsNameChar(s[0]) then s[0] else '_'] + Sanitize(s[1..])
  }

  function StartSafely(s: string): string {
    if s != "" && !IsLetter(s[0]) && s[0] != '_' then "_" + s else s
  }

  function AvoidReserved(s: string): string { if IsReserved(s) then "_" + s else s }

  function Truncate(s: string, n: nat): string { if |s| > n then s[..n] else s }

  function Process(name: string): string { Truncate(AvoidReserved(StartSafely(Sanitize(name))), 32) }

  // ---------- What it gives ----------

  lemma WordIsShort(s: string)
    requires IsReservedWord(s)
    ensures 0 < |s| <= 9 && IsLetter(s[0]) && !('0' <= s[|s| - 1] <= '9')
  {
  }

  lemma ReservedIsShort(s: string)
    requires IsReserved(s)
    ensures 0 < |s| <= 10 && !('0' <= s[|s| - 1] <= '9')
    ensures IsReservedWord(s) ==> IsLetter(s[0])
  {
    hide IsReservedWord;
    if IsReservedWord(s) {
      WordIsShort(s);
    }
  }

  lemma WithoutUnderscore(s: string)
    requires IsReservedUnderscore(s)
    ensures s != "" && !IsReserved(s[1..])
  {
  }

  /** A reserved word with an underscore in front of it is not reserved. */
  lemma UnderscoreFreesReserved(s: string)
    requires IsReserved(s)
    ensures !IsReserved("_" + s)
  {
    hide IsReservedWord, IsReservedUnderscore;
    assert ("_" + s)[1..] == s && ("_" + s)[0] == '_';
    if IsReserved("_" + s) {
      ReservedIsShort("_" + s);
      WithoutUnderscore("_" + s);
    }
  }

  lemma UnderscoreThenLetter(s: string)
    requires IsReservedUnderscore(s)
    ensures |s| >= 2 && IsLetter(s[1])
  {
  }

  /** A name that may start and stand as it is. */
  predicate IsFree(s: string) { (s == "" || IsLetter(s[0]) || s[0] == '_') && !IsReserved(s) }

  lemma StartOfReserved(s: string)
    requires IsReserved(s)
    ensures s != "" && (IsLetter(s[0]) || s[0] == '_')
  {
  }

  /** At most one underscore is put in front, and only where it is needed; it always suffices. */
  lemma OneUnderscoreSuffices(name: string)
    ensures var s := Sanitize(name);
      && Process(name) == Truncate(if IsFree(s) then s else "_" + s, 32)
      && (IsFree(s) || IsFree("_" + s))
  {
    hide IsReservedWord, IsReservedUnderscore;
    var s := Sanitize(name);
    if IsReserved(s) {
      UnderscoreFreesReserved(s);
      StartOfReserved(s);
    } else if !IsFree(s) && IsReserved("_" + s) {
      ReservedIsShort("_" + s);
      UnderscoreThenLetter("_" + s);
      assert false;
    }
  }

  lemma EmptyIsFree()
    ensures !IsReserved("")
  {
  }

  /** Every column name but the empty one becomes a name Stata accepts. */
  lemma ProcessGivesStataName(name: string)
    ensures if name == "" then Process(name) == "" else IsStataName(Process(name))
  {
    if name != "" {
      hide IsReserved;
      var started := StartSafely(Sanitize(name));
      var free := AvoidReserved(started);
      if IsReserved(started) {
        ReservedIsShort(started);
        UnderscoreFreesReserved(started);
      }
      if |free| > 32 && IsReserved(free[..32]) {
        ReservedIsShort(free[..32]);
      }
    } else {
      EmptyIsFree();
    }
  }

  /** A name is kept exactly when Stata accepts it already (or it is empty). */
  lemma KeptIffStataName(name: string)
    ensures Process(name) == name <==> name == "" || IsStataName(name)
  {
    ProcessGivesStataName(name);
    if IsStataName(name) {
      hide IsReserved;
      assert Sanitize(name) == name;
    }
  }

  lemma ProcessIdempotent(name: string)
    ensures Process(Process(name)) == Process(name)
  {
    ProcessGivesStataName(name);
    KeptIffStataName(Process(name));
  }

  lemma ProcessedAs(name: string, s: string)
    requires Sanitize(name) == s && |s| < 32
    ensures Process(name) == if IsFree(s) then s else "_" + s
  {
    OneUnderscoreSuffices(name);
    hide Process, IsFree;
  }

  lemma ReservedExamples()
    ensures IsReserved("if") && !IsReserved("a_b_c")
  {
  }

  /** What becomes of blanks and signs, of a digit in front, and of a reserved word. */
  lemma ProcessedNames()
    ensures Process("a b-c") == "a_b_c" && Process("2nd") == "_2nd" && Process("if") == "_if"
  {
    hide Process, Sanitize, IsReserved;
    ReservedExamples();
    assert IsLetter("a_b_c"[0]) && !IsLetter("2nd"[0]) && "2nd"[0] != '_';
    assert IsFree("a_b_c") && !IsFree("2nd") && !IsFree("if");
    hide IsFree;
    assert Sanitize("a b-c") == "a_b_c" && Sanitize("2nd") == "2nd" && Sanitize("if") == "if";
    ProcessedAs("a b-c", "a_b_c");
    ProcessedAs("2nd", "2nd");
    ProcessedAs("if", "if");
  }
}
