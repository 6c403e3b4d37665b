/** `convertCase` and `convertToDotCase`: split on runs of characters outside
    [a-zA-Z0-9], keep empty tokens, reject input whose tokens are all empty,
    then camel-case or dot-case the tokens. */
module RefinedPrompt {
  import opened Values
  import opened Ascii
  import opened Tokens
  import opened Casing

  /** `input.split(/[^a-zA-Z0-9]+/)`. */
  function Words(s: string): seq<string> {
    SplitRuns(s, NotAlnum)
  }

  /** The rejection test `words.length === 0 || words.every(word => word === '')`. */
  predicate NoWords(words: seq<string>) {
    |words| == 0 || forall w :: w in words ==> w == []
  }

  /** `convertCase`: camelCase. */
  function ConvertCase(input: JsValue): (r: Result<string>)
    ensures r == Err(WrongType) <==> input.NonString?
    ensures r == Err(NoValidWords) <==> input.Str? && !HasAlnum(input.s)
    ensures r.Ok? <==> input.Str? && HasAlnum(input.s)
    ensures input.Str? && r.Ok? ==> forall c :: c in r.value ==> IsAlnum(c)
    ensures input.Str? && r.Ok? ==> Lower(r.value) == Lower(RemoveSeps(input.s, NotAlnum))
  {
    match input
    case NonString => Err(WrongType)
    case Str(s) =>
      var words := Words(s);
      NoWordsIffNoAlnum(s);
      CamelOutput(s);
      if NoWords(words) then Err(NoValidWords) else Ok(CamelJoin(words))
  }

  /** `convertToDotCase`: dot.case. */
  function ConvertToDotCase(input: JsValue): (r: Result<string>)
    ensures r == Err(WrongType) <==> input.NonString?
    ensures r == Err(NoValidWords) <==> input.Str? && !HasAlnum(input.s)
    ensures r.Ok? <==> input.Str? && HasAlnum(input.s)
    ensures input.Str? && r.Ok? ==> forall c :: c in r.value ==> IsLower(c) || IsDigit(c) || c == '.'
    ensures input.Str? && r.Ok? ==> multiset(r.value)['.'] == RunCount(input.s, NotAlnum)
    ensures input.Str? && r.Ok? ==> SplitChar(r.value, '.') == Lowered(Words(input.s))
  {
    match input
    case NonString => Err(WrongType)
    case Str(s) =>
      var words := Words(s);
      NoWordsIffNoAlnum(s);
      DotOutput(s);
      if NoWords(words) then Err(NoValidWords) else Ok(Join(Lowered(words), "."))
  }

  // ---------------------------------------------------------------------
  // Lemmas behind the contracts

  /** The tokens are all empty exactly when `s` has no ASCII letter or digit;
      the split never yields an empty array. */
  lemma {:induction false} NoWordsIffNoAlnum(s: string)
    ensures NoWords(Words(s)) <==> !HasAlnum(s)
  {
    SplitRunsAllEmpty(s, NotAlnum);
    assert (forall c :: c in s ==> NotAlnum(c)) <==> !HasAlnum(s);
  }

  /** Every token consists of ASCII letters and digits. */
  lemma {:induction false} WordsAlnum(s: string)
    ensures forall t :: t in Words(s) ==> forall c :: c in t ==> IsAlnum(c)
  {
    SplitRunsNoSep(s, NotAlnum);
  }

  lemma {:induction false} CamelOutput(s: string)
    ensures forall c :: c in CamelJoin(Words(s)) ==> IsAlnum(c)
    ensures Lower(CamelJoin(Words(s))) == Lower(RemoveSeps(s, NotAlnum))
  {
    WordsAlnum(s);
    CamelJoinChars(Words(s), IsAlnum);
    CamelJoinSplitRuns(s, NotAlnum);
  }

  lemma {:induction false} DotOutput(s: string)
    ensures forall c :: c in Join(Lowered(Words(s)), ".") ==> IsLower(c) || IsDigit(c) || c == '.'
    ensures multiset(Join(Lowered(Words(s)), "."))['.'] == RunCount(s, NotAlnum)
    ensures SplitChar(Join(Lowered(Words(s)), "."), '.') == Lowered(Words(s))
  {
    var ws := Words(s);
    var ls := Lowered(ws);
    WordsAlnum(s);
    forall t | t in ls ensures forall c :: c in t ==> IsLower(c) || IsDigit(c) {
      var i :| 0 <= i < |ls| && ls[i] == t;
      assert ws[i] in ws;
      forall c | c in t ensures IsLower(c) || IsDigit(c) {
        var j :| 0 <= j < |t| && t[j] == c;
        assert ws[i][j] in ws[i];
      }
    }
    var p := (c: char) => IsLower(c) || IsDigit(c) || c == '.';
    JoinChars(ls, ".", p);
    SplitRunsCount(s, NotAlnum);
    JoinCount(ls, '.');
    SplitCharJoin(ls, '.');
  }

  // ---------------------------------------------------------------------
  // Further properties

  /** Camel casing by position: the first token is lowercased and every later
      token is capitalised. */
  lemma {:induction false} ConvertCaseByPosition(s: string)
    requires HasAlnum(s)
    ensures var ws := Words(s);
      ConvertCase(Str(s)) == Ok(Lower(ws[0]) + Join(Capitalized(ws[1..]), ""))
  {
    CamelJoinSplit(Words(s));
  }

  /** A leading separator leaves the first token empty, so that every word is
      capitalised, the first one included. */
  lemma {:induction false} ConvertCaseLeadingSeparator(s: string)
    requires HasAlnum(s) && NotAlnum(s[0])
    ensures ConvertCase(Str(s)) == Ok(Join(Capitalized(Words(s)), ""))
  {
    ConvertCaseOk(s);
    SplitRunsFirst(s, NotAlnum);
    CamelJoinEmptyFirst(Words(s));
  }

  /** Characters other than letters reach the output unchanged and in place:
      digits keep their value. */
  lemma {:induction false} ConvertCaseKeepsNonLetters(s: string)
    requires HasAlnum(s)
    ensures var kept := RemoveSeps(s, NotAlnum); var out := ConvertCase(Str(s)).value;
      |out| == |kept| && forall i :: 0 <= i < |kept| && !IsLetter(kept[i]) ==> out[i] == kept[i]
  {
    SameUpToCase(ConvertCase(Str(s)).value, RemoveSeps(s, NotAlnum));
  }

  // ---------------------------------------------------------------------
  // Successful calls

  /** A successful call returns the camel join of the tokens. */
  lemma {:induction false} ConvertCaseOk(s: string)
    requires HasAlnum(s)
    ensures ConvertCase(Str(s)) == Ok(CamelJoin(Words(s)))
  {
    NoWordsIffNoAlnum(s);
  }

  /** A successful call returns the lowercased tokens joined by dots. */
  lemma {:induction false} ConvertToDotCaseOk(s: string)
    requires HasAlnum(s)
    ensures ConvertToDotCase(Str(s)) == Ok(Join(Lowered(Words(s)), "."))
  {
    NoWordsIffNoAlnum(s);
  }
}
