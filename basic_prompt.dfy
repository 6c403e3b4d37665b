/** `convertCamelCase`: splits on runs of white space or underscores, keeps
    empty pieces, lowercases the first piece and capitalises the others.
    Nothing is validated and nothing is rejected. */
module BasicPrompt {
  import opened Ascii
  import opened Tokens
  import opened Casing

  /** The regex class [\s_]. */
  predicate IsSpaceOrUnderscore(c: char) { IsJsSpace(c) || c == '_' }

  /** `s.split(/[\s_]+/)`. */
  function Words(s: string): seq<string> {
    SplitRuns(s, IsSpaceOrUnderscore)
  }

  /** `convertCamelCase`. */
  function ConvertCamelCase(s: string): (r: string)
    ensures NoSep(r, IsSpaceOrUnderscore)
    ensures Lower(r) == Lower(RemoveSeps(s, IsSpaceOrUnderscore))
    ensures r == [] <==> forall c :: c in s ==> IsSpaceOrUnderscore(c)
  {
    CamelOutput(s);
    CamelJoin(Words(s))
  }

  lemma {:induction false} CamelOutput(s: string)
    ensures NoSep(CamelJoin(Words(s)), IsSpaceOrUnderscore)
    ensures Lower(CamelJoin(Words(s))) == Lower(RemoveSeps(s, IsSpaceOrUnderscore))
    ensures CamelJoin(Words(s)) == [] <==> forall c :: c in s ==> IsSpaceOrUnderscore(c)
  {
    var out, kept := CamelJoin(Words(s)), RemoveSeps(s, IsSpaceOrUnderscore);
    CamelJoinSplitRuns(s, IsSpaceOrUnderscore);
    NoSepUpToCase(out, kept, IsSpaceOrUnderscore);
    assert |out| == |Lower(out)| == |kept|;
    if kept != [] {
      assert kept[0] in kept;
    }
    assert (forall c :: c in s ==> IsSpaceOrUnderscore(c)) <==> kept == [];
  }

  /** Camel casing by position: the first piece is lowercased and every later
      piece is capitalised. */
  lemma {:induction false} ConvertCamelCaseByPosition(s: string)
    ensures var ws := Words(s);
      ConvertCamelCase(s) == Lower(ws[0]) + Join(Capitalized(ws[1..]), "")
  {
    CamelJoinSplit(Words(s));
  }

  /** A leading separator leaves the first piece empty, so that the first
      word is capitalised. */
  lemma {:induction false} ConvertCamelCaseLeadingSeparator(s: string)
    requires s != [] && IsSpaceOrUnderscore(s[0])
    ensures ConvertCamelCase(s) == Join(Capitalized(Words(s)), "")
  {
    SplitRunsFirst(s, IsSpaceOrUnderscore);
    CamelJoinEmptyFirst(Words(s));
  }

  /** Characters other than letters, such as '-', stay where they are. */
  lemma {:induction false} ConvertCamelCaseKeepsNonLetters(s: string)
    ensures var kept := RemoveSeps(s, IsSpaceOrUnderscore); var out := ConvertCamelCase(s);
      |out| == |kept| && forall i :: 0 <= i < |kept| && !IsLetter(kept[i]) ==> out[i] == kept[i]
  {
    SameUpToCase(ConvertCamelCase(s), RemoveSeps(s, IsSpaceOrUnderscore));
  }
}
