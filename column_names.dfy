/** `clean_column_names`: the normalisation of column names in the transform stage. */
module ColumnNames {
  import opened Text

  /** A normalised name: no space, no parenthesis, no upper-case ASCII letter. */
  predicate IsCleanName(s: string) {
    ' ' !in s && '(' !in s && ')' !in s && forall c :: c in s ==> !IsUpper(c)
  }

  /** lower, strip, ' ' to '_', delete '(' and then ')', in that order; the result is always a clean name. */
  function CleanName(s: string): (r: string)
    ensures IsCleanName(r)
  {
    var l := Lower(s);
    var t := Strip(l);
    var u := ReplaceChar(t, ' ', '_');
    var v := RemoveChar(u, '(');
    LowerMembers(s);
    StripMembers(l);
    ReplaceCharMembers(t, ' ', '_');
    RemoveCharMembers(u, '(');
    RemoveCharMembers(v, ')');
    RemoveChar(v, ')')
  }

  /** Normalises every column name, keeping the number and order of columns: every new name is clean. */
  function CleanNames(columns: seq<string>): (r: seq<string>)
    ensures |r| == |columns|
    ensures forall k :: 0 <= k < |columns| ==> IsCleanName(r[k]) && r[k] == CleanName(columns[k])
  {
    seq(|columns|, k requires 0 <= k < |columns| => CleanName(columns[k]))
  }

  /** The only white space in s, if any, is the space character. */
  predicate OnlySpaceWhitespace(s: string) {
    forall c :: c in s && IsSpace(c) ==> c == ' '
  }

  /** No upper case, and no white space but the plain space. */
  predicate SpacesAndNoUpper(x: string) {
    forall c :: c in x ==> (c == ' ' || !IsSpace(c)) && !IsUpper(c)
  }

  /** No white space and no upper case. */
  predicate NoSpaceNoUpper(x: string) {
    forall c :: c in x ==> !IsSpace(c) && !IsUpper(c)
  }

  lemma LowerKeepsSpaces(s: string)
    requires OnlySpaceWhitespace(s)
    ensures SpacesAndNoUpper(Lower(s))
  {
    LowerMembers(s);
  }

  lemma StripKeepsSpaces(l: string)
    requires SpacesAndNoUpper(l)
    ensures SpacesAndNoUpper(Strip(l))
  {
    StripMembers(l);
  }

  lemma ReplaceDropsSpaces(t: string)
    requires SpacesAndNoUpper(t)
    ensures NoSpaceNoUpper(ReplaceChar(t, ' ', '_'))
  {
    ReplaceCharMembers(t, ' ', '_');
  }

  lemma RemoveKeepsNoSpace(u: string, c: char)
    requires NoSpaceNoUpper(u)
    ensures NoSpaceNoUpper(RemoveChar(u, c))
  {
    RemoveCharMembers(u, c);
  }

  /** Without non-space white space in the raw name, a cleaned name has neither white space nor upper case. */
  lemma CleanNameChars(s: string)
    requires OnlySpaceWhitespace(s)
    ensures NoSpaceNoUpper(CleanName(s))
  {
    var l := Lower(s);
    var t := Strip(l);
    var u := ReplaceChar(t, ' ', '_');
    LowerKeepsSpaces(s);
    StripKeepsSpaces(l);
    ReplaceDropsSpaces(t);
    RemoveKeepsNoSpace(u, '(');
    RemoveKeepsNoSpace(RemoveChar(u, '('), ')');
  }

  /** Normalising a normalised name changes nothing, when the raw name has no tab, newline or other non-space white space. */
  lemma CleanNameIdempotent(s: string)
    requires OnlySpaceWhitespace(s)
    ensures CleanName(CleanName(s)) == CleanName(s)
  {
    var x := CleanName(s);
    CleanNameChars(s);
    LowerUnchanged(x);
    if x != [] {
      assert x[0] in x && x[|x| - 1] in x;
    }
    StripUnchanged(x);
    ReplaceUnchanged(x, ' ', '_');
    RemoveCharAbsent(x, '(');
    RemoveCharAbsent(x, ')');
  }

  // The counterexample `"(\tx"`, one string function per lemma: each lemma
  // unfolds a single recursive function on a literal, which keeps every proof
  // small; CleanNameNotIdempotentWithTab chains them.

  lemma ParenTabLower()
    ensures Lower("(\tx") == "(\tx"
  {
    var s := "(\tx";
    assert forall i :: 0 <= i < |s| ==> !IsUpper(s[i]);
    LowerUnchanged(s);
  }

  lemma ParenTabStrip()
    ensures Strip("(\tx") == "(\tx"
  {
    StripUnchanged("(\tx");
  }

  lemma ParenTabReplace()
    ensures ReplaceChar("(\tx", ' ', '_') == "(\tx"
  {
    var s := "(\tx";
    assert forall i :: 0 <= i < |s| ==> s[i] != ' ';
    ReplaceUnchanged(s, ' ', '_');
  }

  lemma ParenTabUnchanged()
    ensures ReplaceChar(Strip(Lower("(\tx")), ' ', '_') == "(\tx"
  {
    ParenTabLower();
    ParenTabStrip();
    ParenTabReplace();
  }

  lemma ParenTabRemoved()
    ensures RemoveChar(RemoveChar("(\tx", '('), ')') == "\tx"
  {
    assert RemoveChar("(\tx", '(') == "\tx";
    assert RemoveChar("\tx", ')') == "\tx";
  }

  lemma CleanNameTabFirstPass()
    ensures CleanName("(\tx") == "\tx"
  {
    ParenTabUnchanged();
    ParenTabRemoved();
  }

  lemma StripLeadingTab()
    ensures Strip("\tx") == "x"
  {
    assert IsSpace("\tx"[0]) && "\tx"[1..] == "x";
    assert StripStart("x") == "x";
    assert StripEnd("x") == "x";
  }

  lemma CleanNameOfX()
    ensures RemoveChar(RemoveChar(ReplaceChar("x", ' ', '_'), '('), ')') == "x"
  {
    ReplaceUnchanged("x", ' ', '_');
    assert RemoveChar("x", '(') == "x";
    assert RemoveChar("x", ')') == "x";
  }

  lemma CleanNameTabSecondPass()
    ensures CleanName("\tx") == "x"
  {
    LowerUnchanged("\tx");
    StripLeadingTab();
    CleanNameOfX();
  }

  /** With a tab behind a parenthesis one pass is not enough: "(\tx" becomes "\tx", then "x". */
  lemma CleanNameNotIdempotentWithTab()
    ensures CleanName(CleanName("(\tx")) != CleanName("(\tx")
  {
    CleanNameTabFirstPass();
    CleanNameTabSecondPass();
  }
}
