/**
 The JavaScript string operations the price finder relies on, over `seq<char>`:
 `toLowerCase` (as an ASCII case fold), `trim` (over the ECMAScript white-space
 and line-terminator characters) and `includes` (substring search).
 */
module Strings {

  /** ECMAScript WhiteSpace and LineTerminator code points: what `trim` removes. */
  predicate IsWhitespace(c: char)
  {
    || c == ' ' || ('\t' <= c <= '\r') || c == '\U{00A0}' || c == '\U{1680}'
    || ('\U{2000}' <= c <= '\U{200A}') || c == '\U{2028}' || c == '\U{2029}'
    || c == '\U{202F}' || c == '\U{205F}' || c == '\U{3000}' || c == '\U{FEFF}'
  }

  predicate AllWhitespace(s: string)
  {
    forall k :: 0 <= k < |s| ==> IsWhitespace(s[k])
  }

  predicate IsUpper(c: char)
  {
    'A' <= c <= 'Z'
  }

  function LowerChar(c: char): char
  {
    if IsUpper(c) then (c as int + 32) as char else c
  }

  /** `toLowerCase`, restricted to the ASCII letters. */
  function Lower(s: string): (r: string)
    ensures |r| == |s|
    ensures forall k :: 0 <= k < |s| ==> r[k] == LowerChar(s[k])
    ensures forall k :: 0 <= k < |r| ==> !IsUpper(r[k])
  {
    if s == [] then [] else [LowerChar(s[0])] + Lower(s[1..])
  }

  /** Folding leaves white space where it is: no white-space character is an upper-case letter. */
  lemma LowerKeepsWhitespace(s: string)
    ensures AllWhitespace(Lower(s)) <==> AllWhitespace(s)
  {
    var r := Lower(s);
    forall k | 0 <= k < |s|
      ensures IsWhitespace(r[k]) <==> IsWhitespace(s[k])
    {
      assert IsWhitespace(s[k]) ==> !IsUpper(s[k]);
    }
  }

  /** `trimStart`: the longest suffix that does not begin with white space. */
  function TrimStart(s: string): (r: string)
    ensures |r| <= |s| && r == s[|s| - |r|..]
    ensures forall k :: 0 <= k < |s| - |r| ==> IsWhitespace(s[k])
    ensures r != [] ==> !IsWhitespace(r[0])
    decreases |s|
  {
    if s != [] && IsWhitespace(s[0]) then TrimStart(s[1..]) else s
  }

  /** `trimEnd`: the longest prefix that does not end with white space. */
  function TrimEnd(s: string): (r: string)
    ensures |r| <= |s| && r == s[..|r|]
    ensures forall k :: |r| <= k < |s| ==> IsWhitespace(s[k])
    ensures r != [] ==> !IsWhitespace(r[|r| - 1])
    decreases |s|
  {
    if s != [] && IsWhitespace(s[|s| - 1]) then TrimEnd(s[..|s| - 1]) else s
  }

  /** `r` is the slice of `s` at `i` with nothing but white space on either side of it. */
  predicate TrimmedAt(s: string, r: string, i: int)
  {
    && 0 <= i && i + |r| <= |s| && r == s[i..i + |r|]
    && (forall k :: 0 <= k < i ==> IsWhitespace(s[k]))
    && (forall k :: i + |r| <= k < |s| ==> IsWhitespace(s[k]))
  }

  /** `trim`: `s` without its leading and trailing white space. */
  function Trim(s: string): (r: string)
    ensures exists i :: TrimmedAt(s, r, i)
    ensures r == [] <==> AllWhitespace(s)
    ensures r != [] ==> !IsWhitespace(r[0]) && !IsWhitespace(r[|r| - 1])
  {
    TrimBothEnds(s);
    TrimEnd(TrimStart(s))
  }

  lemma TrimBothEnds(s: string)
    ensures TrimmedAt(s, TrimEnd(TrimStart(s)), |s| - |TrimStart(s)|)
    ensures TrimEnd(TrimStart(s)) == [] <==> AllWhitespace(s)
  {
    var t := TrimStart(s);
    TrimSlices(s, t, TrimEnd(t), |s| - |t|);
  }

  /** Trimming the front to `t` and then the back of `t` to `r` leaves a slice of `s`. */
  lemma TrimSlices(s: string, t: string, r: string, i: int)
    requires 0 <= i <= |s| && t == s[i..] && |r| <= |t| && r == t[..|r|]
    requires forall k :: 0 <= k < i ==> IsWhitespace(s[k])
    requires forall k :: |r| <= k < |t| ==> IsWhitespace(t[k])
    requires r != [] ==> !IsWhitespace(r[0])
    ensures TrimmedAt(s, r, i)
    ensures r == [] <==> AllWhitespace(s)
  {
    forall k | i + |r| <= k < |s|
      ensures IsWhitespace(s[k])
    {
      assert s[k] == t[k - i];
    }
    if r != [] {
      assert r[0] == s[i];
    }
  }

  /** `pat` occurs in `text` starting at position `i`. */
  predicate OccursAt(text: string, pat: string, i: int)
  {
    0 <= i && i + |pat| <= |text| && text[i..i + |pat|] == pat
  }

  /** `text.includes(pat)`, as a scan over the start positions. */
  predicate Contains(text: string, pat: string)
    ensures pat == [] ==> Contains(text, pat)
    ensures Contains(text, pat) ==> |pat| <= |text|
    decreases |text|
  {
    pat <= text || (text != [] && Contains(text[1..], pat))
  }

  /** The scan finds `pat` exactly when it occurs somewhere in `text`. */
  lemma ContainsIff(text: string, pat: string)
    ensures Contains(text, pat) <==> exists i :: OccursAt(text, pat, i)
  {
    if Contains(text, pat) {
      var i := ContainsWitness(text, pat);
    }
    if i :| OccursAt(text, pat, i) {
      OccurrenceContained(text, pat, i);
    }
  }

  /** Where the scan succeeds, it has found an occurrence. */
  lemma {:induction false} ContainsWitness(text: string, pat: string) returns (i: int)
    requires Contains(text, pat)
    ensures OccursAt(text, pat, i)
    decreases |text|
  {
    if pat <= text {
      i := 0;
    } else {
      var j := ContainsWitness(text[1..], pat);
      assert text[1..][j..j + |pat|] == text[j + 1..j + 1 + |pat|];
      i := j + 1;
    }
  }

  /** Every occurrence is found by the scan. */
  lemma {:induction false} OccurrenceContained(text: string, pat: string, i: int)
    requires OccursAt(text, pat, i)
    ensures Contains(text, pat)
    decreases i
  {
    if i > 0 {
      assert text[1..][i - 1..i - 1 + |pat|] == text[i..i + |pat|];
      OccurrenceContained(text[1..], pat, i - 1);
    }
  }
}
