/** Concrete inputs and what the converters return for them. Each example is
    assembled from small facts: the general shape of a split into a fixed
    number of pieces, the shape of a conversion with that many words, the
    casing of each literal word, and the concatenation of the literal
    pieces. */
module Examples {
  import opened Values
  import opened Ascii
  import opened Tokens
  import opened Casing
  import RefinedPrompt
  import ChainPrompt
  import BasicPrompt

  // ---------------------------------------------------------------------
  // Splits into a fixed number of pieces, concatenated as `Interleave`
  // nests them

  lemma {:induction false} SplitOfTwo(w0: string, r0: string, w1: string, isSep: char -> bool)
    requires NoSep(w0, isSep) && IsRun(r0, isSep) && NoSep(w1, isSep)
    ensures SplitRuns((w0 + r0) + w1, isSep) == [w0, w1]
  {
    var ws, rs := [w0, w1], [r0];
    SplitRunsInterleave(ws, rs, isSep);
    assert Interleave(ws[1..], rs[1..]) == w1;
  }

  lemma {:induction false} SplitOfThree(w0: string, r0: string, w1: string, r1: string, w2: string,
                                        isSep: char -> bool)
    requires NoSep(w0, isSep) && IsRun(r0, isSep) && NoSep(w1, isSep)
    requires IsRun(r1, isSep) && NoSep(w2, isSep) && w1 != []
    ensures SplitRuns((w0 + r0) + ((w1 + r1) + w2), isSep) == [w0, w1, w2]
  {
    var ws, rs := [w0, w1, w2], [r0, r1];
    SplitRunsInterleave(ws, rs, isSep);
    assert Interleave(ws[2..], rs[2..]) == w2;
    assert Interleave(ws[1..], rs[1..]) == (w1 + r1) + w2;
  }

  lemma {:induction false} SplitOfFive(w0: string, r0: string, w1: string, r1: string, w2: string,
                                       r2: string, w3: string, r3: string, w4: string,
                                       isSep: char -> bool)
    requires NoSep(w0, isSep) && NoSep(w1, isSep) && NoSep(w2, isSep)
    requires NoSep(w3, isSep) && NoSep(w4, isSep)
    requires IsRun(r0, isSep) && IsRun(r1, isSep) && IsRun(r2, isSep) && IsRun(r3, isSep)
    requires w1 != [] && w2 != [] && w3 != []
    ensures SplitRuns((w0 + r0) + ((w1 + r1) + ((w2 + r2) + ((w3 + r3) + w4))), isSep)
         == [w0, w1, w2, w3, w4]
  {
    var ws, rs := [w0, w1, w2, w3, w4], [r0, r1, r2, r3];
    SplitRunsInterleave(ws, rs, isSep);
    assert Interleave(ws[4..], rs[4..]) == w4;
    assert Interleave(ws[3..], rs[3..]) == (w3 + r3) + w4;
    assert Interleave(ws[2..], rs[2..]) == (w2 + r2) + ((w3 + r3) + w4);
    assert Interleave(ws[1..], rs[1..]) == (w1 + r1) + ((w2 + r2) + ((w3 + r3) + w4));
  }

  // ---------------------------------------------------------------------
  // Camel, dot and Pascal joins of a fixed number of words, nested as
  // `Join` nests them

  lemma {:induction false} CamelOfOne(a: string)
    ensures CamelJoin([a]) == Lower(a) && Join(Lowered([a]), ".") == Lower(a)
  {
    assert CamelWords([a]) == [Lower(a)];
    assert Lowered([a]) == [Lower(a)];
  }

  lemma {:induction false} CamelOfTwo(a: string, b: string)
    ensures CamelJoin([a, b]) == Lower(a) + Capitalize(b)
  {
    var cw := CamelWords([a, b]);
    assert cw == [Lower(a), Capitalize(b)];
    JoinEmptyCons(cw);
    assert cw[1..] == [Capitalize(b)];
  }

  lemma {:induction false} CamelOfThree(a: string, b: string, c: string)
    ensures CamelJoin([a, b, c]) == Lower(a) + (Capitalize(b) + Capitalize(c))
  {
    var cw := CamelWords([a, b, c]);
    assert cw == [Lower(a), Capitalize(b), Capitalize(c)];
    JoinEmptyCons(cw);
    JoinEmptyCons(cw[1..]);
    assert cw[1..][1..] == [Capitalize(c)];
  }

  lemma {:induction false} CamelOfFive(a: string, b: string, c: string, d: string, e: string)
    ensures CamelJoin([a, b, c, d, e])
         == Lower(a) + (Capitalize(b) + (Capitalize(c) + (Capitalize(d) + Capitalize(e))))
  {
    var cw := CamelWords([a, b, c, d, e]);
    assert cw == [Lower(a), Capitalize(b), Capitalize(c), Capitalize(d), Capitalize(e)];
    JoinEmptyCons(cw);
    JoinEmptyCons(cw[1..]);
    JoinEmptyCons(cw[2..]);
    JoinEmptyCons(cw[3..]);
    assert cw[1..][1..] == cw[2..] && cw[2..][1..] == cw[3..] && cw[3..][1..] == [Capitalize(e)];
  }

  lemma {:induction false} DotOfTwo(a: string, b: string)
    ensures Join(Lowered([a, b]), ".") == (Lower(a) + ".") + Lower(b)
  {
    var lw := Lowered([a, b]);
    assert lw == [Lower(a), Lower(b)];
    assert lw[1..] == [Lower(b)];
  }

  lemma {:induction false} DotOfThree(a: string, b: string, c: string)
    ensures Join(Lowered([a, b, c]), ".") == (Lower(a) + ".") + ((Lower(b) + ".") + Lower(c))
  {
    var lw := Lowered([a, b, c]);
    assert lw == [Lower(a), Lower(b), Lower(c)];
    assert lw[2..] == [Lower(c)];
    assert Join(lw[1..], ".") == (Lower(b) + ".") + Lower(c);
  }

  lemma {:induction false} DotOfFive(a: string, b: string, c: string, d: string, e: string)
    ensures Join(Lowered([a, b, c, d, e]), ".")
         == (Lower(a) + ".") + ((Lower(b) + ".") + ((Lower(c) + ".") + ((Lower(d) + ".") + Lower(e))))
  {
    var lw := Lowered([a, b, c, d, e]);
    assert lw == [Lower(a), Lower(b), Lower(c), Lower(d), Lower(e)];
    assert lw[4..] == [Lower(e)];
    assert Join(lw[3..], ".") == (Lower(d) + ".") + Lower(e);
    assert Join(lw[2..], ".") == (Lower(c) + ".") + ((Lower(d) + ".") + Lower(e));
    assert Join(lw[1..], ".") == (Lower(b) + ".") + ((Lower(c) + ".") + ((Lower(d) + ".") + Lower(e)));
  }

  lemma {:induction false} PascalOfTwo(a: string, b: string)
    ensures Join(Capitalized([a, b]), "") == Capitalize(a) + Capitalize(b)
  {
    var cs := Capitalized([a, b]);
    assert cs == [Capitalize(a), Capitalize(b)];
    JoinEmptyCons(cs);
    assert cs[1..] == [Capitalize(b)];
  }

  // ---------------------------------------------------------------------
  // Accepted inputs

  /** A RefinedPrompt input with a non-empty word is accepted by both
      converters. */
  lemma {:induction false} RefinedAccepts(s: string, i: nat)
    requires i < |RefinedPrompt.Words(s)| && RefinedPrompt.Words(s)[i] != []
    ensures RefinedPrompt.ConvertCase(Str(s)) == Ok(CamelJoin(RefinedPrompt.Words(s)))
    ensures RefinedPrompt.ConvertToDotCase(Str(s)) == Ok(Join(Lowered(RefinedPrompt.Words(s)), "."))
  {
    RefinedPrompt.NoWordsIffNoAlnum(s);
    assert RefinedPrompt.Words(s)[i] in RefinedPrompt.Words(s);
    RefinedPrompt.ConvertCaseOk(s);
    RefinedPrompt.ConvertToDotCaseOk(s);
  }

  /** A ChainPrompt input with a word is accepted. */
  lemma {:induction false} ChainAccepts(s: string)
    requires ChainPrompt.Words(s) != []
    ensures ChainPrompt.ToCamelCase(Str(s)) == Ok(Join(Capitalized(ChainPrompt.Words(s)), ""))
  {
    ChainPrompt.TrimKeepsWords(s);
  }

  // ---------------------------------------------------------------------
  // Casing of the literal words. Each literal fact has a lemma of its own,
  // and so do the `...Pieces` and `...Joined` facts below: an example proof
  // then only combines them, which keeps the cost of unfolding literal
  // strings small and the same on every solver seed.

  lemma LowerTest() ensures Lower("test") == "test" {}
  lemma CapitalizeTest() ensures Capitalize("test") == "Test" {}
  lemma LowerFunction() ensures Lower("function") == "function" {}
  lemma CapitalizeFunction() ensures Capitalize("function") == "Function" {}
  lemma LowerHello() ensures Lower("Hello") == "hello" {}
  lemma LowerWorld() ensures Lower("WORLD") == "world" {}
  lemma CapitalizeWorld() ensures Capitalize("WORLD") == "World" {}
  lemma LowerExample() ensures Lower("example") == "example" {}
  lemma CapitalizeExample() ensures Capitalize("example") == "Example" {}
  lemma LowerDigits() ensures Lower("823") == "823" {}
  lemma LowerV2() ensures Lower("v2") == "v2" {}
  lemma CapitalizeFour() ensures Capitalize("4") == "4" {}
  lemma LowerEmpty() ensures Lower("") == "" {}
  lemma CapitalizeEmpty() ensures Capitalize("") == "" {}
  lemma LowerLead() ensures Lower("lead") == "lead" {}
  lemma CapitalizeLead() ensures Capitalize("lead") == "Lead" {}
  lemma LowerAnd() ensures Lower("and") == "and" {}
  lemma CapitalizeAnd() ensures Capitalize("and") == "And" {}
  lemma LowerTrail() ensures Lower("trail") == "trail" {}
  lemma CapitalizeTrail() ensures Capitalize("trail") == "Trail" {}
  lemma CapitalizeHelloLower() ensures Capitalize("hello") == "Hello" {}
  lemma CapitalizeWorldLower() ensures Capitalize("world") == "World" {}
  lemma LowerCustomFunction() ensures Lower("CustomFunction") == "customfunction" {}
  lemma LowerHyphen() ensures Lower("a-b") == "a-b" {}
  lemma CapitalizeC() ensures Capitalize("c") == "C" {}

  // ---------------------------------------------------------------------
  // convertCase and convertToDotCase

  lemma TestFunctionPieces()
    ensures NoSep("test", NotAlnum) && IsRun(" ", NotAlnum) && NoSep("function", NotAlnum)
    ensures ("test" + " ") + "function" == "test function"
    ensures "test" + "Function" == "testFunction" && ("test" + ".") + "function" == "test.function"
  {
  }

  lemma RefinedTestFunction()
    ensures RefinedPrompt.ConvertCase(Str("test function")) == Ok("testFunction")
    ensures RefinedPrompt.ConvertToDotCase(Str("test function")) == Ok("test.function")
  {
    TestFunctionPieces();
    SplitOfTwo("test", " ", "function", NotAlnum);
    RefinedAccepts("test function", 0);
    CamelOfTwo("test", "function");
    DotOfTwo("test", "function");
    LowerTest(); CapitalizeTest();
    LowerFunction(); CapitalizeFunction();
  }

  lemma HelloWorldExamplePieces()
    ensures NoSep("Hello", NotAlnum) && NoSep("WORLD", NotAlnum) && NoSep("example", NotAlnum)
    ensures IsRun("-", NotAlnum) && IsRun("_", NotAlnum)
    ensures ("Hello" + "-") + (("WORLD" + "_") + "example") == "Hello-WORLD_example"
  {
  }

  lemma HelloWorldExampleJoined()
    ensures "hello" + ("World" + "Example") == "helloWorldExample"
    ensures ("hello" + ".") + (("world" + ".") + "example") == "hello.world.example"
  {
  }

  lemma RefinedHelloWorldExample()
    ensures RefinedPrompt.ConvertCase(Str("Hello-WORLD_example")) == Ok("helloWorldExample")
    ensures RefinedPrompt.ConvertToDotCase(Str("Hello-WORLD_example")) == Ok("hello.world.example")
  {
    HelloWorldExamplePieces();
    SplitOfThree("Hello", "-", "WORLD", "_", "example", NotAlnum);
    RefinedAccepts("Hello-WORLD_example", 0);
    CamelOfThree("Hello", "WORLD", "example");
    DotOfThree("Hello", "WORLD", "example");
    LowerHello();
    LowerWorld(); CapitalizeWorld();
    LowerExample();
    CapitalizeExample();
    HelloWorldExampleJoined();
  }

  /** A digits-only input is accepted by both converters and returned as it
      is. */
  lemma Refined823()
    ensures RefinedPrompt.ConvertCase(Str("823")) == Ok("823")
    ensures RefinedPrompt.ConvertToDotCase(Str("823")) == Ok("823")
  {
    assert NoSep("823", NotAlnum);
    SplitRunsSingle("823", NotAlnum);
    RefinedAccepts("823", 0);
    CamelOfOne("823");
    LowerDigits();
  }

  lemma V24Pieces()
    ensures NoSep("v2", NotAlnum) && IsRun(" ", NotAlnum) && NoSep("4", NotAlnum)
    ensures ("v2" + " ") + "4" == "v2 4" && "v2" + "4" == "v24"
  {
  }

  /** Digits have no case: a digit that starts a later word is kept. */
  lemma RefinedV24()
    ensures RefinedPrompt.ConvertCase(Str("v2 4")) == Ok("v24")
  {
    V24Pieces();
    SplitOfTwo("v2", " ", "4", NotAlnum);
    RefinedAccepts("v2 4", 0);
    CamelOfTwo("v2", "4");
    LowerV2(); CapitalizeFour();
  }

  lemma LeadAndTrailPieces()
    ensures NoSep("", NotAlnum) && NoSep("lead", NotAlnum) && NoSep("and", NotAlnum) && NoSep("trail", NotAlnum)
    ensures IsRun("  --", NotAlnum) && IsRun("-", NotAlnum) && IsRun("--", NotAlnum) && IsRun("--  ", NotAlnum)
    ensures ("" + "  --") + (("lead" + "-") + (("and" + "--") + (("trail" + "--  ") + "")))
         == "  --lead-and--trail--  "
  {
  }

  lemma LeadAndTrailJoined()
    ensures "" + ("Lead" + ("And" + ("Trail" + ""))) == "LeadAndTrail"
    ensures ("" + ".") + (("lead" + ".") + (("and" + ".") + (("trail" + ".") + ""))) == ".lead.and.trail."
  {
  }

  /** Leading and trailing separators give empty first and last words: the
      camel result starts with a capital and the dot result starts and ends
      with a dot. */
  lemma RefinedLeadAndTrail()
    ensures RefinedPrompt.ConvertCase(Str("  --lead-and--trail--  ")) == Ok("LeadAndTrail")
    ensures RefinedPrompt.ConvertToDotCase(Str("  --lead-and--trail--  ")) == Ok(".lead.and.trail.")
  {
    LeadAndTrailPieces();
    SplitOfFive("", "  --", "lead", "-", "and", "--", "trail", "--  ", "", NotAlnum);
    RefinedAccepts("  --lead-and--trail--  ", 1);
    CamelOfFive("", "lead", "and", "trail", "");
    DotOfFive("", "lead", "and", "trail", "");
    LowerEmpty(); CapitalizeEmpty();
    LowerLead(); CapitalizeLead();
    LowerAnd(); CapitalizeAnd();
    LowerTrail(); CapitalizeTrail();
    LeadAndTrailJoined();
  }

  lemma RefinedRejects()
    ensures RefinedPrompt.ConvertCase(Str("")) == Err(NoValidWords)
    ensures RefinedPrompt.ConvertToDotCase(Str(" -_ ")) == Err(NoValidWords)
    ensures RefinedPrompt.ConvertCase(NonString) == Err(WrongType)
    ensures RefinedPrompt.ConvertToDotCase(NonString) == Err(WrongType)
  {
    assert !HasAlnum(" -_ ");
  }

  // ---------------------------------------------------------------------
  // toCamelCase

  lemma HelloWorldPieces()
    ensures NoSep("hello", ChainPrompt.IsSpaceOrHyphen) && NoSep("world", ChainPrompt.IsSpaceOrHyphen)
    ensures IsRun(" ", ChainPrompt.IsSpaceOrHyphen)
    ensures ("hello" + " ") + "world" == "hello world" && "Hello" + "World" == "HelloWorld"
    ensures FilterNonEmpty(["hello", "world"]) == ["hello", "world"]
  {
  }

  lemma ChainHelloWorld()
    ensures ChainPrompt.ToCamelCase(Str("hello world")) == Ok("HelloWorld")
  {
    HelloWorldPieces();
    SplitOfTwo("hello", " ", "world", ChainPrompt.IsSpaceOrHyphen);
    ChainAccepts("hello world");
    PascalOfTwo("hello", "world");
    CapitalizeHelloLower(); CapitalizeWorldLower();
  }

  lemma HyphensPieces()
    ensures NoSep("", ChainPrompt.IsSpaceOrHyphen) && IsRun("--", ChainPrompt.IsSpaceOrHyphen)
    ensures ("" + "--") + "" == "--"
    ensures FilterNonEmpty(["", ""]) == []
    ensures !AllSpace("--")
  {
    assert "--"[0] in "--" && !IsJsSpace("--"[0]);
  }

  /** Hyphens are not white space: "--" passes the blank check and has no
      words. */
  lemma ChainHyphensOnly()
    ensures ChainPrompt.ToCamelCase(Str("--")) == Ok("")
  {
    HyphensPieces();
    SplitOfTwo("", "--", "", ChainPrompt.IsSpaceOrHyphen);
    assert Capitalized([]) == [];
  }

  lemma ChainRejectsEmpty()
    ensures ChainPrompt.ToCamelCase(Str("")) == Err(EmptyInput)
    ensures ChainPrompt.ToCamelCase(NonString) == Err(WrongType)
  {
  }

  lemma ChainRejectsBlank()
    ensures ChainPrompt.ToCamelCase(Str(" \t\n ")) == Err(EmptyInput)
  {
    assert AllSpace(" \t\n ");
  }

  // ---------------------------------------------------------------------
  // convertCamelCase

  lemma BasicTestFunctionPieces()
    ensures NoSep("", BasicPrompt.IsSpaceOrUnderscore) && IsRun(" ", BasicPrompt.IsSpaceOrUnderscore)
    ensures NoSep("test", BasicPrompt.IsSpaceOrUnderscore) && NoSep("function", BasicPrompt.IsSpaceOrUnderscore)
    ensures ("test" + " ") + "function" == "test function" && "test" + "Function" == "testFunction"
  {
  }

  lemma BasicTestFunction()
    ensures BasicPrompt.ConvertCamelCase("test function") == "testFunction"
  {
    BasicTestFunctionPieces();
    SplitOfTwo("test", " ", "function", BasicPrompt.IsSpaceOrUnderscore);
    CamelOfTwo("test", "function");
    LowerTest(); CapitalizeTest();
    LowerFunction(); CapitalizeFunction();
  }

  /** Without a separator the whole input is the first word and is
      lowercased entirely. */
  lemma BasicCustomFunction()
    ensures BasicPrompt.ConvertCamelCase("CustomFunction") == "customfunction"
  {
    assert NoSep("CustomFunction", BasicPrompt.IsSpaceOrUnderscore);
    SplitRunsSingle("CustomFunction", BasicPrompt.IsSpaceOrUnderscore);
    CamelOfOne("CustomFunction");
    LowerCustomFunction();
  }

  lemma LeadingSpaceJoined()
    ensures ("" + " ") + (("test" + " ") + "function") == " test function"
    ensures "" + ("Test" + "Function") == "TestFunction"
  {
  }

  /** A leading separator makes the first word a later piece. */
  lemma BasicLeadingSpace()
    ensures BasicPrompt.ConvertCamelCase(" test function") == "TestFunction"
  {
    BasicTestFunctionPieces();
    LeadingSpaceJoined();
    SplitOfThree("", " ", "test", " ", "function", BasicPrompt.IsSpaceOrUnderscore);
    CamelOfThree("", "test", "function");
    LowerEmpty(); CapitalizeEmpty();
    LowerTest(); CapitalizeTest();
    LowerFunction(); CapitalizeFunction();
  }

  lemma HyphenKeptPieces()
    ensures NoSep("a-b", BasicPrompt.IsSpaceOrUnderscore) && NoSep("c", BasicPrompt.IsSpaceOrUnderscore)
    ensures IsRun(" ", BasicPrompt.IsSpaceOrUnderscore)
    ensures ("a-b" + " ") + "c" == "a-b c" && "a-b" + "C" == "a-bC"
  {
  }

  /** A hyphen is not a separator here and stays inside its word. */
  lemma BasicHyphenKept()
    ensures BasicPrompt.ConvertCamelCase("a-b c") == "a-bC"
  {
    HyphenKeptPieces();
    SplitOfTwo("a-b", " ", "c", BasicPrompt.IsSpaceOrUnderscore);
    CamelOfTwo("a-b", "c");
    LowerHyphen(); CapitalizeC();
  }

  lemma BasicEmpty()
    ensures BasicPrompt.ConvertCamelCase("") == ""
    ensures BasicPrompt.ConvertCamelCase(" _ ") == ""
  {
  }
}
