/** Character classes and case mapping. Case mapping is the ASCII one: only
    'A'..'Z' and 'a'..'z' change, every other character is left alone. */
module Ascii {

  predicate IsUpper(c: char) { 'A' <= c <= 'Z' }
  predicate IsLower(c: char) { 'a' <= c <= 'z' }
  predicate IsDigit(c: char) { '0' <= c <= '9' }
  predicate IsLetter(c: char) { IsUpper(c) || IsLower(c) }

  /** Membership in the regex class [a-zA-Z0-9]. */
  predicate IsAlnum(c: char) { IsLetter(c) || IsDigit(c) }

  /** The regex class [^a-zA-Z0-9]. */
  predicate NotAlnum(c: char) { !IsAlnum(c) }

  predicate HasAlnum(s: string) { exists c :: c in s && IsAlnum(c) }

  /** The ECMAScript WhiteSpace and LineTerminator code points: the set that
      `\s` matches and that `String.prototype.trim` removes. */
  predicate IsJsSpace(c: char) {
    var n := c as int;
    || n == 0x09 || n == 0x0A || n == 0x0B || n == 0x0C || n == 0x0D
    || n == 0x20 || n == 0xA0 || n == 0x1680
    || (0x2000 <= n <= 0x200A)
    || n == 0x2028 || n == 0x2029 || n == 0x202F || n == 0x205F
    || n == 0x3000 || n == 0xFEFF
  }

  function LowerChar(c: char): (r: char)
    ensures !IsUpper(r)
    ensures IsLetter(r) == IsLetter(c)
    ensures !IsUpper(c) ==> r == c
  {
    if IsUpper(c) then (c as int + 32) as char else c
  }

  function UpperChar(c: char): (r: char)
    ensures !IsLower(r)
    ensures IsLetter(r) == IsLetter(c)
    ensures !IsLower(c) ==> r == c
  {
    if IsLower(c) then (c as int - 32) as char else c
  }

  /** `toLowerCase` under ASCII mapping. */
  function Lower(s: string): (r: string)
    ensures |r| == |s|
    ensures forall i :: 0 <= i < |s| ==> r[i] == LowerChar(s[i])
  {
    seq(|s|, i requires 0 <= i < |s| => LowerChar(s[i]))
  }

  /** `w.charAt(0).toUpperCase() + w.slice(1).toLowerCase()`. Its contract
      determines the result: the capitalised string that equals `w` up to
      case, with no lower-case first letter and no upper-case letter after. */
  function Capitalize(w: string): (r: string)
    ensures Lower(r) == Lower(w)
    ensures r != [] ==> !IsLower(r[0])
    ensures forall i :: 1 <= i < |r| ==> !IsUpper(r[i])
  {
    if w == [] then [] else [UpperChar(w[0])] + Lower(w[1..])
  }

  predicate NoUpper(s: string) { forall c :: c in s ==> !IsUpper(c) }

  lemma {:induction false} UpperCharOfLowerChar(c: char)
    ensures UpperChar(LowerChar(c)) == UpperChar(c)
  {
  }

  lemma {:induction false} LowerAppend(a: string, b: string)
    ensures Lower(a + b) == Lower(a) + Lower(b)
  {
  }

  lemma {:induction false} LowerIdempotent(s: string)
    ensures Lower(Lower(s)) == Lower(s)
    ensures NoUpper(Lower(s))
  {
  }

  /** Characters that agree up to case are equal unless they are letters:
      case mapping moves letters among letters and fixes everything else. */
  lemma {:induction false} SameUpToCase(x: string, y: string)
    requires Lower(x) == Lower(y)
    ensures |x| == |y|
    ensures forall i :: 0 <= i < |x| ==> IsLetter(x[i]) == IsLetter(y[i])
    ensures forall i :: 0 <= i < |x| && !IsLetter(y[i]) ==> x[i] == y[i]
  {
    forall i | 0 <= i < |x|
      ensures IsLetter(x[i]) == IsLetter(y[i])
      ensures !IsLetter(y[i]) ==> x[i] == y[i]
    {
      assert LowerChar(x[i]) == Lower(x)[i] == Lower(y)[i] == LowerChar(y[i]);
    }
  }

  predicate AllSpace(s: string) { forall c :: c in s ==> IsJsSpace(c) }

  /** Removes leading JavaScript white space: the result is a suffix of `s`,
      what was cut is all white space, and the result does not start with it. */
  function TrimStart(s: string): (r: string)
    ensures |r| <= |s| && r == s[|s| - |r|..]
    ensures AllSpace(s[..|s| - |r|])
    ensures r != [] ==> !IsJsSpace(r[0])
  {
    if s != [] && IsJsSpace(s[0]) then TrimStart(s[1..]) else s
  }

  /** Removes trailing JavaScript white space: the result is a prefix of `s`,
      what was cut is all white space, and the result does not end with it. */
  function TrimEnd(s: string): (r: string)
    ensures |r| <= |s| && r == s[..|r|]
    ensures AllSpace(s[|r|..])
    ensures r != [] ==> !IsJsSpace(r[|r| - 1])
  {
    if s != [] && IsJsSpace(s[|s| - 1]) then TrimEnd(s[..|s| - 1]) else s
  }

  /** `String.prototype.trim`. */
  function Trim(s: string): (r: string)
    ensures r == [] <==> AllSpace(s)
  {
    var t := TrimStart(s);
    assert s == s[..|s| - |t|] + t;
    TrimEnd(t)
  }
}
