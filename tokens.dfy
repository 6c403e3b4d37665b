/** String splitting and joining with JavaScript's semantics: `split` by a
    regex that matches maximal runs of separator characters, `split` by a
    one-character string, `join`, and `filter(Boolean)` on a string array. */
module Tokens {

  predicate NoSep(t: string, isSep: char -> bool) {
    forall c :: c in t ==> !isSep(c)
  }

  /** A non-empty stretch of separators. */
  predicate IsRun(t: string, isSep: char -> bool) {
    t != [] && forall c :: c in t ==> isSep(c)
  }

  /** `s.split(/[S]+/)` where `isSep` is the character class S. Read from
      the end: a non-separator joins the token that follows it; a separator
      followed by another separator is dropped, since the run it belongs to
      ends later; the last separator of a run opens a new, empty token in
      front of the tokens that follow. */
  function SplitRuns(s: string, isSep: char -> bool): (r: seq<string>)
    ensures |r| >= 1
    decreases |s|
  {
    if s == [] then [""]
    else
      var rest := SplitRuns(s[1..], isSep);
      if !isSep(s[0]) then [[s[0]] + rest[0]] + rest[1..]
      else if |s| > 1 && isSep(s[1]) then rest
      else [""] + rest
  }

  /** Number of maximal separator runs in `s`, where `inRun` says whether the
      character just before `s` was a separator. */
  function RunsFrom(s: string, isSep: char -> bool, inRun: bool): nat
    decreases |s|
  {
    if s == [] then 0
    else (if isSep(s[0]) && !inRun then 1 else 0) + RunsFrom(s[1..], isSep, isSep(s[0]))
  }

  function RunCount(s: string, isSep: char -> bool): nat {
    RunsFrom(s, isSep, false)
  }

  /** The characters of `s` that are not separators, in order. */
  function RemoveSeps(s: string, isSep: char -> bool): (r: string)
    ensures forall c :: c in r <==> c in s && !isSep(c)
    ensures |r| <= |s|
  {
    if s == [] then []
    else (if isSep(s[0]) then [] else [s[0]]) + RemoveSeps(s[1..], isSep)
  }

  /** `ts.join(sep)`. */
  function Join(ts: seq<string>, sep: string): string {
    if |ts| == 0 then []
    else if |ts| == 1 then ts[0]
    else ts[0] + sep + Join(ts[1..], sep)
  }

  /** `s.split(d)` for a one-character string `d`: every occurrence of `d`
      is a boundary, so adjacent occurrences give empty tokens. */
  function SplitChar(s: string, d: char): (r: seq<string>)
    ensures |r| >= 1
    decreases |s|
  {
    if s == [] then [""]
    else
      var rest := SplitChar(s[1..], d);
      if s[0] == d then [""] + rest else [[s[0]] + rest[0]] + rest[1..]
  }

  /** `ts.filter(Boolean)`: the non-empty strings, in order. */
  function FilterNonEmpty(ts: seq<string>): (r: seq<string>)
    ensures forall t :: t in r <==> t != [] && t in ts
    ensures |r| <= |ts|
    ensures |r| == |ts| <==> forall i :: 0 <= i < |ts| ==> ts[i] != []
  {
    if ts == [] then []
    else
      assert forall t :: t in ts <==> t == ts[0] || t in ts[1..];
      (if ts[0] == [] then [] else [ts[0]]) + FilterNonEmpty(ts[1..])
  }

  // ---------------------------------------------------------------------
  // SplitRuns

  lemma {:induction false} RunsFromAfterSeparator(s: string, isSep: char -> bool)
    ensures RunsFrom(s, isSep, false)
         == RunsFrom(s, isSep, true) + (if s != [] && isSep(s[0]) then 1 else 0)
  {
  }

  /** The token count is one more than the number of maximal separator runs. */
  lemma {:induction false} SplitRunsCount(s: string, isSep: char -> bool)
    ensures |SplitRuns(s, isSep)| == RunCount(s, isSep) + 1
    decreases |s|
  {
    if s != [] {
      SplitRunsCount(s[1..], isSep);
      RunsFromAfterSeparator(s[1..], isSep);
    }
  }

  /** No token contains a separator. */
  lemma {:induction false} SplitRunsNoSep(s: string, isSep: char -> bool)
    ensures forall t :: t in SplitRuns(s, isSep) ==> NoSep(t, isSep)
    decreases |s|
  {
    if s != [] {
      SplitRunsNoSep(s[1..], isSep);
      var rest := SplitRuns(s[1..], isSep);
      assert rest[0] in rest;
      forall t | t in rest[1..] ensures t in rest {
      }
      if !isSep(s[0]) {
        assert NoSep([s[0]] + rest[0], isSep);
      }
    }
  }

  /** The first token is empty exactly when `s` is empty or starts with a
      separator. */
  lemma {:induction false} SplitRunsFirst(s: string, isSep: char -> bool)
    ensures SplitRuns(s, isSep)[0] == [] <==> s == [] || isSep(s[0])
    decreases |s|
  {
    if s != [] && isSep(s[0]) && |s| > 1 && isSep(s[1]) {
      SplitRunsFirst(s[1..], isSep);
    }
  }

  /** The last token is empty exactly when `s` is empty or ends with a
      separator. */
  lemma {:induction false} SplitRunsLast(s: string, isSep: char -> bool)
    ensures var r := SplitRuns(s, isSep); r[|r| - 1] == [] <==> s == [] || isSep(s[|s| - 1])
    decreases |s|
  {
    if s != [] {
      SplitRunsLast(s[1..], isSep);
      SplitRunsSingle(s[1..], isSep);
      var rest := SplitRuns(s[1..], isSep);
      var r := SplitRuns(s, isSep);
      if |s| == 1 {
        assert rest == [""];
      } else {
        assert s[1..][|s| - 2] == s[|s| - 1];
        if !isSep(s[0]) && |rest| == 1 {
          assert s[|s| - 1] in s[1..];
        } else {
          assert r[|r| - 1] == rest[|rest| - 1];
        }
      }
    }
  }

  /** There is a single token exactly when `s` has no separator; that token
      is then `s` itself. */
  lemma {:induction false} SplitRunsSingle(s: string, isSep: char -> bool)
    ensures |SplitRuns(s, isSep)| == 1 <==> NoSep(s, isSep)
    ensures NoSep(s, isSep) ==> SplitRuns(s, isSep) == [s]
    decreases |s|
  {
    if s != [] {
      SplitRunsSingle(s[1..], isSep);
      assert s == [s[0]] + s[1..];
      if !isSep(s[0]) {
        assert NoSep(s, isSep) <==> NoSep(s[1..], isSep);
      } else {
        assert s[0] in s;
        if |s| > 1 && isSep(s[1]) {
          assert s[1] in s[1..];
        }
      }
    }
  }

  /** Empty tokens occur only in the first and the last position: adjacent
      separators belong to one run and never produce an empty token between
      them. */
  lemma {:induction false} SplitRunsInteriorNonEmpty(s: string, isSep: char -> bool)
    ensures forall i :: 0 < i < |SplitRuns(s, isSep)| - 1 ==> SplitRuns(s, isSep)[i] != []
    decreases |s|
  {
    if s != [] {
      SplitRunsInteriorNonEmpty(s[1..], isSep);
      var rest := SplitRuns(s[1..], isSep);
      var r := SplitRuns(s, isSep);
      if !isSep(s[0]) {
        assert |r| == |rest|;
        forall i | 0 < i < |r| - 1 ensures r[i] != [] {
          assert r[i] == rest[i];
          assert 0 < i < |rest| - 1;
          assert rest[i] != [];
        }
      } else if !(|s| > 1 && isSep(s[1])) {
        SplitRunsFirst(s[1..], isSep);
        assert forall i :: 0 < i < |r| ==> r[i] == rest[i - 1];
      }
    }
  }

  /** Joining the tokens without a separator gives `s` with its separators
      removed. */
  lemma {:induction false} SplitRunsJoin(s: string, isSep: char -> bool)
    ensures Join(SplitRuns(s, isSep), "") == RemoveSeps(s, isSep)
    decreases |s|
  {
    if s != [] {
      SplitRunsJoin(s[1..], isSep);
      var rest := SplitRuns(s[1..], isSep);
      var r := SplitRuns(s, isSep);
      if !isSep(s[0]) {
        JoinEmptyCons(rest);
        JoinEmptyCons(r);
        assert r[1..] == rest[1..];
        calc {
          Join(r, "");
          ([s[0]] + rest[0]) + Join(rest[1..], "");
          [s[0]] + (rest[0] + Join(rest[1..], ""));
          [s[0]] + RemoveSeps(s[1..], isSep);
        }
      } else {
        assert RemoveSeps(s, isSep) == [] + RemoveSeps(s[1..], isSep) == RemoveSeps(s[1..], isSep);
        if !(|s| > 1 && isSep(s[1])) {
          JoinEmptyCons(r);
          assert r[1..] == rest;
          assert Join(r, "") == [] + Join(rest, "") == Join(rest, "");
        }
      }
    }
  }

  /** A prefix without separators becomes part of the first token. */
  lemma {:induction false} SplitRunsWordPrefix(w: string, t: string, isSep: char -> bool)
    requires NoSep(w, isSep)
    ensures var r := SplitRuns(t, isSep); SplitRuns(w + t, isSep) == [w + r[0]] + r[1..]
    decreases |w|
  {
    var r := SplitRuns(t, isSep);
    if w == [] {
      assert w + t == t;
      assert w + r[0] == r[0];
      assert r == [r[0]] + r[1..];
    } else {
      assert w[0] in w;
      assert (w + t)[0] == w[0];
      assert (w + t)[1..] == w[1..] + t;
      SplitRunsWordPrefix(w[1..], t, isSep);
      var r' := SplitRuns(w[1..] + t, isSep);
      assert r' == [w[1..] + r[0]] + r[1..];
      assert SplitRuns(w + t, isSep) == [[w[0]] + r'[0]] + r'[1..];
      assert [w[0]] + (w[1..] + r[0]) == w + r[0];
    }
  }

  /** A run of separators in front closes an empty first token. */
  lemma {:induction false} SplitRunsRunPrefix(run: string, t: string, isSep: char -> bool)
    requires IsRun(run, isSep)
    requires t == [] || !isSep(t[0])
    ensures SplitRuns(run + t, isSep) == [""] + SplitRuns(t, isSep)
    decreases |run|
  {
    assert run[0] in run;
    assert (run + t)[1..] == run[1..] + t;
    if |run| > 1 {
      assert run[1] in run;
      forall c | c in run[1..] ensures c in run { }
      SplitRunsRunPrefix(run[1..], t, isSep);
    } else {
      assert run + t == [run[0]] + t;
    }
  }

  /** A word followed by a separator run is a complete token. */
  lemma {:induction false} SplitRunsWordRun(w: string, run: string, t: string, isSep: char -> bool)
    requires NoSep(w, isSep)
    requires IsRun(run, isSep)
    requires t == [] || !isSep(t[0])
    ensures SplitRuns(w + run + t, isSep) == [w] + SplitRuns(t, isSep)
  {
    assert w + run + t == w + (run + t);
    SplitRunsWordPrefix(w, run + t, isSep);
    SplitRunsRunPrefix(run, t, isSep);
    assert w + "" == w;
  }

  /** `ws[0] + rs[0] + ws[1] + ... + rs[n-1] + ws[n]`: words interleaved with
      separator runs. */
  function Interleave(ws: seq<string>, rs: seq<string>): string
    requires |ws| == |rs| + 1
  {
    if |ws| == 1 then ws[0] else ws[0] + rs[0] + Interleave(ws[1..], rs[1..])
  }

  /** Splitting undoes interleaving: a string written as words without
      separators, between non-empty runs of separators, with only the first
      and the last word allowed to be empty, splits into exactly those words. */
  lemma {:induction false} SplitRunsInterleave(ws: seq<string>, rs: seq<string>, isSep: char -> bool)
    requires |ws| == |rs| + 1
    requires forall i :: 0 <= i < |ws| ==> NoSep(ws[i], isSep)
    requires forall i :: 0 <= i < |rs| ==> IsRun(rs[i], isSep)
    requires forall i :: 0 < i < |ws| - 1 ==> ws[i] != []
    ensures SplitRuns(Interleave(ws, rs), isSep) == ws
    decreases |ws|
  {
    if |ws| == 1 {
      SplitRunsSingle(ws[0], isSep);
    } else {
      var t := Interleave(ws[1..], rs[1..]);
      SplitRunsInterleave(ws[1..], rs[1..], isSep);
      if ws[1] != [] {
        InterleaveStart(ws[1..], rs[1..]);
        assert ws[1][0] in ws[1];
      }
      SplitRunsWordRun(ws[0], rs[0], t, isSep);
      assert ws == [ws[0]] + ws[1..];
    }
  }

  lemma {:induction false} InterleaveStart(ws: seq<string>, rs: seq<string>)
    requires |ws| == |rs| + 1
    ensures |ws[0]| <= |Interleave(ws, rs)| && Interleave(ws, rs)[..|ws[0]|] == ws[0]
    ensures |ws| == 1 ==> Interleave(ws, rs) == ws[0]
  {
    if |ws| > 1 {
      var t := Interleave(ws[1..], rs[1..]);
      assert Interleave(ws, rs) == ws[0] + (rs[0] + t);
    }
  }

  /** The tokens of `s` contain every non-separator of `s`: if all tokens are
      empty then `s` has no character outside the separator class, and back. */
  lemma {:induction false} SplitRunsAllEmpty(s: string, isSep: char -> bool)
    ensures (forall t :: t in SplitRuns(s, isSep) ==> t == []) <==> (forall c :: c in s ==> isSep(c))
  {
    SplitRunsJoin(s, isSep);
    JoinEmptyAllEmpty(SplitRuns(s, isSep));
    var r := RemoveSeps(s, isSep);
    if r != [] {
      assert r[0] in r;
    }
  }

  // ---------------------------------------------------------------------
  // Join

  lemma {:induction false} JoinEmptyCons(ts: seq<string>)
    requires |ts| >= 1
    ensures Join(ts, "") == ts[0] + Join(ts[1..], "")
  {
  }

  lemma {:induction false} JoinEmptyAppend(a: seq<string>, b: seq<string>)
    ensures Join(a + b, "") == Join(a, "") + Join(b, "")
    decreases |a|
  {
    if a != [] {
      JoinEmptyCons(a);
      JoinEmptyCons(a + b);
      assert (a + b)[1..] == a[1..] + b;
      JoinEmptyAppend(a[1..], b);
      assert a[0] + (Join(a[1..], "") + Join(b, "")) == (a[0] + Join(a[1..], "")) + Join(b, "");
    } else {
      assert a + b == b;
    }
  }

  /** Joining without a separator gives the empty string exactly when every
      token is empty. */
  lemma {:induction false} JoinEmptyAllEmpty(ts: seq<string>)
    ensures Join(ts, "") == [] <==> forall t :: t in ts ==> t == []
    decreases |ts|
  {
    if ts != [] {
      JoinEmptyCons(ts);
      JoinEmptyAllEmpty(ts[1..]);
      assert |Join(ts, "")| == |ts[0]| + |Join(ts[1..], "")|;
      if Join(ts, "") == [] {
        assert forall t :: t in ts ==> t == ts[0] || t in ts[1..];
      } else if ts[0] == [] {
        assert Join(ts[1..], "") != [];
        var t :| t in ts[1..] && t != [];
        assert t in ts;
      } else {
        assert ts[0] in ts;
      }
    }
  }

  /** Every character of a join comes from a token or from the separator. */
  lemma {:induction false} JoinChars(ts: seq<string>, sep: string, p: char -> bool)
    requires forall t :: t in ts ==> forall c :: c in t ==> p(c)
    requires forall c :: c in sep ==> p(c)
    ensures forall c :: c in Join(ts, sep) ==> p(c)
    decreases |ts|
  {
    if |ts| > 1 {
      forall t | t in ts[1..] ensures t in ts { }
      JoinChars(ts[1..], sep, p);
      assert ts[0] in ts;
    } else if |ts| == 1 {
      assert ts[0] in ts;
    }
  }

  /** Joining `n` tokens that do not contain `d` with `d` puts exactly
      `n - 1` copies of `d` in the result. */
  lemma {:induction false} JoinCount(ts: seq<string>, d: char)
    requires |ts| >= 1
    requires forall t :: t in ts ==> d !in t
    ensures multiset(Join(ts, [d]))[d] == |ts| - 1
    decreases |ts|
  {
    assert ts[0] in ts;
    assert multiset(ts[0])[d] == 0;
    if |ts| > 1 {
      JoinCount(ts[1..], d);
      assert Join(ts, [d]) == ts[0] + [d] + Join(ts[1..], [d]);
      assert multiset(Join(ts, [d])) == multiset(ts[0]) + multiset([d]) + multiset(Join(ts[1..], [d]));
    }
  }

  // ---------------------------------------------------------------------
  // SplitChar

  lemma {:induction false} SplitCharWordPrefix(w: string, t: string, d: char)
    requires d !in w
    ensures var r := SplitChar(t, d); SplitChar(w + t, d) == [w + r[0]] + r[1..]
    decreases |w|
  {
    var r := SplitChar(t, d);
    if w == [] {
      assert w + t == t;
      assert w + r[0] == r[0];
      assert r == [r[0]] + r[1..];
    } else {
      assert w[0] in w;
      assert (w + t)[0] == w[0];
      assert (w + t)[1..] == w[1..] + t;
      SplitCharWordPrefix(w[1..], t, d);
      var r' := SplitChar(w[1..] + t, d);
      assert r' == [w[1..] + r[0]] + r[1..];
      assert SplitChar(w + t, d) == [[w[0]] + r'[0]] + r'[1..];
      assert [w[0]] + (w[1..] + r[0]) == w + r[0];
    }
  }

  /** Splitting on `d` undoes joining with `d` when no token contains `d`,
      empty tokens included. */
  lemma {:induction false} SplitCharJoin(ts: seq<string>, d: char)
    requires |ts| >= 1
    requires forall t :: t in ts ==> d !in t
    ensures SplitChar(Join(ts, [d]), d) == ts
    decreases |ts|
  {
    assert ts[0] in ts;
    if |ts| == 1 {
      SplitCharWordPrefix(ts[0], [], d);
      assert ts[0] + [] == ts[0];
      assert ts[0] + SplitChar([], d)[0] == ts[0];
    } else {
      SplitCharJoin(ts[1..], d);
      var tail := [d] + Join(ts[1..], [d]);
      assert Join(ts, [d]) == ts[0] + tail;
      SplitCharWordPrefix(ts[0], tail, d);
      assert tail[1..] == Join(ts[1..], [d]);
      assert SplitChar(tail, d) == [""] + ts[1..];
      assert ts[0] + "" == ts[0];
      assert ts == [ts[0]] + ts[1..];
    }
  }

  // ---------------------------------------------------------------------
  // FilterNonEmpty

  /** Filtering distributes over concatenation; with the one-token case
      this says the kept tokens keep their order. */
  lemma {:induction false} FilterAppend(a: seq<string>, b: seq<string>)
    ensures FilterNonEmpty(a + b) == FilterNonEmpty(a) + FilterNonEmpty(b)
    decreases |a|
  {
    if a == [] {
      assert a + b == b;
    } else {
      assert (a + b)[0] == a[0];
      assert (a + b)[1..] == a[1..] + b;
      FilterAppend(a[1..], b);
    }
  }

  /** Dropping empty tokens does not change their concatenation. */
  lemma {:induction false} FilterJoin(ts: seq<string>)
    ensures Join(FilterNonEmpty(ts), "") == Join(ts, "")
    decreases |ts|
  {
    if ts != [] {
      FilterJoin(ts[1..]);
      JoinEmptyCons(ts);
      JoinEmptyAppend(if ts[0] == [] then [] else [ts[0]], FilterNonEmpty(ts[1..]));
    }
  }

  /** A separator ends the first token: what follows it does not matter. */
  lemma {:induction false} FirstTokenBefore(a: string, c: char, b: string, isSep: char -> bool)
    requires isSep(c)
    ensures SplitRuns(a + [c] + b, isSep)[0] == SplitRuns(a, isSep)[0]
    decreases |a|
  {
    if a == [] || isSep(a[0]) {
      assert (a + [c] + b)[0] == if a == [] then c else a[0];
      SplitRunsFirst(a + [c] + b, isSep);
      SplitRunsFirst(a, isSep);
    } else {
      assert a == [a[0]] + a[1..];
      assert a + [c] + b == [a[0]] + (a[1..] + [c] + b);
      SplitRunsWordPrefix([a[0]], a[1..] + [c] + b, isSep);
      SplitRunsWordPrefix([a[0]], a[1..], isSep);
      FirstTokenBefore(a[1..], c, b, isSep);
    }
  }

  /** The non-empty tokens of `a + [c] + b`, for a separator `c`, are those
      of `a` followed by those of `b`. */
  lemma {:induction false} WordsAround(a: string, c: char, b: string, isSep: char -> bool)
    requires isSep(c)
    ensures FilterNonEmpty(SplitRuns(a + [c] + b, isSep))
         == FilterNonEmpty(SplitRuns(a, isSep)) + FilterNonEmpty(SplitRuns(b, isSep))
    decreases |a|
  {
    if a == [] {
      WordsAroundEmpty(c, b, isSep);
    } else {
      assert a == [a[0]] + a[1..];
      assert a + [c] + b == [a[0]] + (a[1..] + [c] + b);
      WordsAround(a[1..], c, b, isSep);
      if isSep(a[0]) {
        WordsAroundSepFirst(a[0], a[1..], c, b, isSep);
      } else {
        WordsAroundWordFirst(a[0], a[1..], c, b, isSep);
      }
    }
  }

  lemma {:induction false} WordsAroundEmpty(c: char, b: string, isSep: char -> bool)
    requires isSep(c)
    ensures FilterNonEmpty(SplitRuns([] + [c] + b, isSep))
         == FilterNonEmpty(SplitRuns([], isSep)) + FilterNonEmpty(SplitRuns(b, isSep))
  {
    assert [] + [c] + b == [c] + b;
    SeparatorCons(c, b, isSep);
    assert FilterNonEmpty(SplitRuns([], isSep)) == [];
  }

  /** The inductive step of `WordsAround` for a separator in front. */
  lemma {:induction false} WordsAroundSepFirst(x: char, a: string, c: char, b: string, isSep: char -> bool)
    requires isSep(c) && isSep(x)
    requires FilterNonEmpty(SplitRuns(a + [c] + b, isSep))
          == FilterNonEmpty(SplitRuns(a, isSep)) + FilterNonEmpty(SplitRuns(b, isSep))
    ensures FilterNonEmpty(SplitRuns([x] + (a + [c] + b), isSep))
         == FilterNonEmpty(SplitRuns([x] + a, isSep)) + FilterNonEmpty(SplitRuns(b, isSep))
  {
    SeparatorCons(x, a + [c] + b, isSep);
    SeparatorCons(x, a, isSep);
  }

  /** The inductive step of `WordsAround` for a word character in front. */
  lemma {:induction false} WordsAroundWordFirst(x: char, a: string, c: char, b: string, isSep: char -> bool)
    requires isSep(c) && !isSep(x)
    requires FilterNonEmpty(SplitRuns(a + [c] + b, isSep))
          == FilterNonEmpty(SplitRuns(a, isSep)) + FilterNonEmpty(SplitRuns(b, isSep))
    ensures FilterNonEmpty(SplitRuns([x] + (a + [c] + b), isSep))
         == FilterNonEmpty(SplitRuns([x] + a, isSep)) + FilterNonEmpty(SplitRuns(b, isSep))
  {
    var R := SplitRuns(a + [c] + b, isSep);
    var A := SplitRuns(a, isSep);
    var FB := FilterNonEmpty(SplitRuns(b, isSep));
    FirstTokenBefore(a, c, b, isSep);
    FilterSameHead(R, A, FB);
    WordCons(x, a + [c] + b, isSep);
    WordCons(x, a, isSep);
    AppendAssoc([[x] + A[0]], FilterNonEmpty(A[1..]), FB);
  }

  /** Regrouping a concatenation, stated on its own so that the step above
      uses it as a single fact. */
  lemma AppendAssoc<T>(p: seq<T>, q: seq<T>, r: seq<T>)
    ensures p + (q + r) == (p + q) + r
  {
  }

  /** Two token lists with the same first token: a common suffix of their
      non-empty tokens stays common after dropping that token. */
  lemma {:induction false} FilterSameHead(R: seq<string>, A: seq<string>, FB: seq<string>)
    requires |R| >= 1 && |A| >= 1 && R[0] == A[0]
    requires FilterNonEmpty(R) == FilterNonEmpty(A) + FB
    ensures FilterNonEmpty(R[1..]) == FilterNonEmpty(A[1..]) + FB
  {
    FilterRest(R);
    FilterRest(A);
    var P := FilterNonEmpty([R[0]]);
    var FR, FA := FilterNonEmpty(R[1..]), FilterNonEmpty(A[1..]);
    assert P + FR == (P + FA) + FB == P + (FA + FB);
    assert FR == (P + FR)[|P|..] == (P + (FA + FB))[|P|..] == FA + FB;
  }

  lemma {:induction false} FilterRest(ts: seq<string>)
    requires |ts| >= 1
    ensures FilterNonEmpty(ts) == FilterNonEmpty([ts[0]]) + FilterNonEmpty(ts[1..])
  {
    FilterAppend([ts[0]], ts[1..]);
    assert ts == [ts[0]] + ts[1..];
  }

  /** A leading non-separator starts the first word. */
  lemma {:induction false} WordCons(x: char, t: string, isSep: char -> bool)
    requires !isSep(x)
    ensures var r := SplitRuns(t, isSep);
      FilterNonEmpty(SplitRuns([x] + t, isSep)) == [[x] + r[0]] + FilterNonEmpty(r[1..])
  {
    var r := SplitRuns(t, isSep);
    SplitRunsWordPrefix([x], t, isSep);
    FilterAppend([[x] + r[0]], r[1..]);
  }

  /** A trailing separator does not change the non-empty tokens. */
  lemma {:induction false} SeparatorSnoc(s: string, isSep: char -> bool)
    requires s != [] && isSep(s[|s| - 1])
    ensures FilterNonEmpty(SplitRuns(s, isSep)) == FilterNonEmpty(SplitRuns(s[..|s| - 1], isSep))
  {
    var init, c := s[..|s| - 1], s[|s| - 1];
    assert s == init + [c] + [];
    WordsAround(init, c, [], isSep);
    assert FilterNonEmpty(SplitRuns([], isSep)) == [];
    assert FilterNonEmpty(SplitRuns(init, isSep)) + [] == FilterNonEmpty(SplitRuns(init, isSep));
  }

  /** A leading separator does not change the non-empty tokens. */
  lemma {:induction false} SeparatorCons(c: char, t: string, isSep: char -> bool)
    requires isSep(c)
    ensures FilterNonEmpty(SplitRuns([c] + t, isSep)) == FilterNonEmpty(SplitRuns(t, isSep))
  {
    assert ([c] + t)[1..] == t;
    var rest := SplitRuns(t, isSep);
    if !(|t| > 0 && isSep(t[0])) {
      FilterAppend([""], rest);
    }
  }
}
