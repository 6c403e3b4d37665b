/** `toCamelCase`: rejects non-strings and blank strings, splits the trimmed
    input on runs of white space or hyphens, drops empty pieces and
    capitalises every word, the first one included. */
module ChainPrompt {
  import opened Values
  import opened Ascii
  import opened Tokens
  import opened Casing

  /** The regex class [\s-]. */
  predicate IsSpaceOrHyphen(c: char) { IsJsSpace(c) || c == '-' }

  /** `trimmed.split(/[\s-]+/).filter(Boolean)`. */
  function Words(s: string): seq<string> {
    FilterNonEmpty(SplitRuns(s, IsSpaceOrHyphen))
  }

  /** The word mapping as written: lowercase the word, then uppercase its
      first character. Under ASCII mapping this is capitalisation. */
  function CapitalizeLowered(w: string): (r: string)
    ensures r == Capitalize(w)
  {
    var lower := Lower(w);
    if lower == [] then []
    else
      UpperCharOfLowerChar(w[0]);
      assert lower[1..] == Lower(w[1..]);
      [UpperChar(lower[0])] + lower[1..]
  }

  /** `toCamelCase`. */
  function ToCamelCase(input: JsValue): (r: Result<string>)
    ensures r == Err(WrongType) <==> input.NonString?
    ensures r == Err(EmptyInput) <==> input.Str? && AllSpace(input.s)
    ensures r.Ok? <==> input.Str? && !AllSpace(input.s)
    ensures input.Str? && r.Ok? ==> r.value == Join(Capitalized(Words(input.s)), "")
    ensures input.Str? && r.Ok? ==> NoSep(r.value, IsSpaceOrHyphen)
    ensures input.Str? && r.Ok? ==> Lower(r.value) == Lower(RemoveSeps(input.s, IsSpaceOrHyphen))
  {
    match input
    case NonString => Err(WrongType)
    case Str(s) =>
      var trimmed := Trim(s);
      if |trimmed| == 0 then Err(EmptyInput)
      else
        var words := Words(trimmed);
        TrimKeepsWords(s);
        PascalOutput(s);
        Ok(Join(CapitalizeEach(words), ""))
  }

  /** `words.map(...)` with the mapping as written. */
  function CapitalizeEach(words: seq<string>): (r: seq<string>)
    ensures r == Capitalized(words)
  {
    seq(|words|, i requires 0 <= i < |words| => CapitalizeLowered(words[i]))
  }

  // ---------------------------------------------------------------------
  // Lemmas behind the contract

  /** Trimming does not change the words: white space is a separator. */
  lemma {:induction false} TrimKeepsWords(s: string)
    ensures Words(Trim(s)) == Words(s)
  {
    TrimStartKeepsWords(s);
    TrimEndKeepsWords(TrimStart(s));
  }

  lemma {:induction false} TrimStartKeepsWords(s: string)
    ensures Words(TrimStart(s)) == Words(s)
    decreases |s|
  {
    if s != [] && IsJsSpace(s[0]) {
      var c, rest := s[0], s[1..];
      assert TrimStart(s) == TrimStart(rest);
      assert s == [c] + rest;
      TrimStartKeepsWords(rest);
      SeparatorCons(c, rest, IsSpaceOrHyphen);
    }
  }

  lemma {:induction false} TrimEndKeepsWords(s: string)
    ensures Words(TrimEnd(s)) == Words(s)
    decreases |s|
  {
    if s != [] && IsJsSpace(s[|s| - 1]) {
      var init := s[..|s| - 1];
      assert TrimEnd(s) == TrimEnd(init);
      TrimEndKeepsWords(init);
      SeparatorSnoc(s, IsSpaceOrHyphen);
    }
  }

  /** Capitalising the words keeps the input's non-separators, up to case,
      and introduces no separator. */
  lemma {:induction false} PascalOutput(s: string)
    ensures NoSep(Join(Capitalized(Words(s)), ""), IsSpaceOrHyphen)
    ensures Lower(Join(Capitalized(Words(s)), "")) == Lower(RemoveSeps(s, IsSpaceOrHyphen))
  {
    var ts := SplitRuns(s, IsSpaceOrHyphen);
    JoinCapitalizedLower(Words(s));
    FilterJoin(ts);
    SplitRunsJoin(s, IsSpaceOrHyphen);
    NoSepUpToCase(Join(Capitalized(Words(s)), ""), RemoveSeps(s, IsSpaceOrHyphen), IsSpaceOrHyphen);
  }

  // ---------------------------------------------------------------------
  // Further properties

  /** Leading, trailing and repeated separators do not change the result:
      the words around a separator are those of the two sides. */
  lemma {:induction false} WordsAroundSeparator(a: string, c: char, b: string)
    requires IsSpaceOrHyphen(c)
    ensures Words(a + [c] + b) == Words(a) + Words(b)
  {
    WordsAround(a, c, b, IsSpaceOrHyphen);
  }

  /** A doubled separator has the effect of a single one. */
  lemma {:induction false} RepeatedSeparator(a: string, c: char, d: char, b: string)
    requires IsSpaceOrHyphen(c) && IsSpaceOrHyphen(d)
    ensures Words(a + [c, d] + b) == Words(a + [c] + b)
  {
    assert a + [c, d] + b == a + [c] + ([d] + b);
    WordsAround(a, c, [d] + b, IsSpaceOrHyphen);
    WordsAround(a, c, b, IsSpaceOrHyphen);
    SeparatorCons(d, b, IsSpaceOrHyphen);
  }
}
