/** Per-token casing and the joins built on it: the camel rule shared by
    `convertCase` and `convertCamelCase`, and whole-token lowercasing. */
module Casing {
  import opened Ascii
  import opened Tokens

  /** The casing the camel converters give the token at position `index`:
      position 0 is lowercased, every later position is capitalised. */
  function CamelWord(index: nat, w: string): (r: string)
    ensures Lower(r) == Lower(w)
    ensures index == 0 ==> NoUpper(r)
    ensures index > 0 && r != [] ==> !IsLower(r[0])
    ensures index > 0 ==> forall i :: 1 <= i < |r| ==> !IsUpper(r[i])
  {
    if index == 0 then
      LowerIdempotent(w);
      Lower(w)
    else
      Capitalize(w)
  }

  /** `ts.map((word, index) => ...)` with the camel rule. */
  function CamelWords(ts: seq<string>): seq<string> {
    seq(|ts|, i requires 0 <= i < |ts| => CamelWord(i, ts[i]))
  }

  /** `ts.map(...).join('')` with the camel rule. */
  function CamelJoin(ts: seq<string>): string {
    Join(CamelWords(ts), "")
  }

  /** Every token capitalised. */
  function Capitalized(ts: seq<string>): (r: seq<string>)
    ensures |r| == |ts|
  {
    seq(|ts|, i requires 0 <= i < |ts| => Capitalize(ts[i]))
  }

  /** `ts.map(word => word.toLowerCase())`. */
  function Lowered(ts: seq<string>): (r: seq<string>)
    ensures |r| == |ts|
  {
    seq(|ts|, i requires 0 <= i < |ts| => Lower(ts[i]))
  }

  /** The camel join is the first token lowercased followed by every later
      token capitalised. */
  lemma {:induction false} CamelJoinSplit(ts: seq<string>)
    requires |ts| >= 1
    ensures CamelJoin(ts) == Lower(ts[0]) + Join(Capitalized(ts[1..]), "")
  {
    var ws := CamelWords(ts);
    JoinEmptyCons(ws);
    assert ws[1..] == Capitalized(ts[1..]);
  }

  /** With an empty first token the camel join capitalises every token. */
  lemma {:induction false} CamelJoinEmptyFirst(ts: seq<string>)
    requires |ts| >= 1 && ts[0] == []
    ensures CamelJoin(ts) == Join(Capitalized(ts), "")
  {
    var cs := Capitalized(ts);
    CamelJoinSplit(ts);
    JoinEmptyCons(cs);
    CapitalizedTail(ts);
    assert Lower(ts[0]) == [] && cs[0] == [];
  }

  lemma {:induction false} CapitalizedTail(ts: seq<string>)
    requires |ts| >= 1
    ensures Capitalized(ts)[1..] == Capitalized(ts[1..])
  {
    var cs, ds := Capitalized(ts)[1..], Capitalized(ts[1..]);
    assert |cs| == |ds|;
    forall k | 0 <= k < |ds| ensures cs[k] == ds[k] {
      assert ts[1..][k] == ts[k + 1];
    }
  }

  /** Capitalising tokens and joining them agrees with joining them, up to
      case. */
  lemma {:induction false} JoinCapitalizedLower(ts: seq<string>)
    ensures Lower(Join(Capitalized(ts), "")) == Lower(Join(ts, ""))
    decreases |ts|
  {
    if ts != [] {
      var cs := Capitalized(ts);
      JoinEmptyCons(cs);
      JoinEmptyCons(ts);
      assert cs[1..] == Capitalized(ts[1..]);
      JoinCapitalizedLower(ts[1..]);
      LowerAppend(cs[0], Join(cs[1..], ""));
      LowerAppend(ts[0], Join(ts[1..], ""));
    }
  }

  /** The camel join equals the plain join of the tokens up to case. */
  lemma {:induction false} CamelJoinLower(ts: seq<string>)
    ensures Lower(CamelJoin(ts)) == Lower(Join(ts, ""))
  {
    if ts != [] {
      CamelJoinSplit(ts);
      JoinCapitalizedLower(ts[1..]);
      JoinEmptyCons(ts);
      LowerIdempotent(ts[0]);
      LowerAppend(Lower(ts[0]), Join(Capitalized(ts[1..]), ""));
      LowerAppend(ts[0], Join(ts[1..], ""));
    }
  }

  /** An empty token after the first contributes nothing to the camel join. */
  lemma {:induction false} CamelJoinSkipsEmpty(ts: seq<string>, i: nat)
    requires 0 < i <= |ts|
    ensures CamelJoin(ts[..i] + [""] + ts[i..]) == CamelJoin(ts)
  {
    var us := ts[..i] + [""] + ts[i..];
    var rest := ts[1..];
    assert us[0] == ts[0];
    assert us[1..] == rest[..i - 1] + [""] + rest[i - 1..];
    CamelJoinSplit(us);
    CamelJoinSplit(ts);
    CapitalizedInsertEmpty(rest, i - 1);
    JoinInsertEmpty(Capitalized(rest), i - 1);
  }

  lemma {:induction false} CapitalizedInsertEmpty(xs: seq<string>, j: nat)
    requires j <= |xs|
    ensures Capitalized(xs[..j] + [""] + xs[j..]) == Capitalized(xs)[..j] + [""] + Capitalized(xs)[j..]
  {
    var ys := xs[..j] + [""] + xs[j..];
    var cs, ds := Capitalized(xs), Capitalized(ys);
    var vs := cs[..j] + [""] + cs[j..];
    assert |ds| == |vs| == |ys|;
    forall k | 0 <= k < |ys| ensures ds[k] == vs[k] {
      assert ds[k] == Capitalize(ys[k]);
      if k < j {
        assert ys[k] == xs[k] && vs[k] == cs[k];
      } else if k == j {
        assert ys[k] == "" && vs[k] == "";
      } else {
        assert ys[k] == xs[k - 1] && vs[k] == cs[k - 1];
      }
    }
  }

  lemma {:induction false} JoinInsertEmpty(xs: seq<string>, j: nat)
    requires j <= |xs|
    ensures Join(xs[..j] + [""] + xs[j..], "") == Join(xs, "")
  {
    JoinEmptyAppend(xs[..j] + [""], xs[j..]);
    JoinEmptyAppend(xs[..j], [""]);
    JoinEmptyAppend(xs[..j], xs[j..]);
    assert xs[..j] + xs[j..] == xs;
    assert Join(xs[..j], "") + Join([""], "") == Join(xs[..j], "");
  }

  /** Each character of a camel join of `ts` is a character of some token,
      possibly with its case changed; in particular a character class that
      is closed under case mapping is kept. */
  lemma {:induction false} CamelJoinChars(ts: seq<string>, p: char -> bool)
    requires forall t :: t in ts ==> forall c :: c in t ==> p(c)
    requires forall c :: p(c) ==> p(LowerChar(c)) && p(UpperChar(c))
    ensures forall c :: c in CamelJoin(ts) ==> p(c)
  {
    var ws := CamelWords(ts);
    forall w | w in ws ensures forall c :: c in w ==> p(c) {
      var i :| 0 <= i < |ws| && ws[i] == w;
      assert ts[i] in ts;
      if i > 0 && ts[i] != [] {
        assert ts[i][0] in ts[i];
        forall c | c in ts[i][1..] ensures c in ts[i] { }
      }
    }
    JoinChars(ws, "", p);
  }

  /** The camel join of a split is the input without its separators, up to
      case. */
  lemma {:induction false} CamelJoinSplitRuns(s: string, isSep: char -> bool)
    ensures Lower(CamelJoin(SplitRuns(s, isSep))) == Lower(RemoveSeps(s, isSep))
  {
    CamelJoinLower(SplitRuns(s, isSep));
    SplitRunsJoin(s, isSep);
  }

  /** A string equal up to case to one without separators has none either,
      when no separator is a letter. */
  lemma {:induction false} NoSepUpToCase(out: string, kept: string, isSep: char -> bool)
    requires forall c :: isSep(c) ==> !IsLetter(c)
    requires NoSep(kept, isSep)
    requires Lower(out) == Lower(kept)
    ensures NoSep(out, isSep)
  {
    SameUpToCase(out, kept);
    forall c | c in out ensures !isSep(c) {
      var i :| 0 <= i < |out| && out[i] == c;
      assert kept[i] in kept;
    }
  }
}
