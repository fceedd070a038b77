/** The string operations the category rules and the search rely on. */
module Strings {

  /** The characters String.trim removes: every code point up to and including the space. */
  predicate IsTrimmable(c: char) {
    c <= ' '
  }

  /** A string is blank when it holds nothing but trimmable characters. */
  predicate IsBlank(s: string) {
    forall k :: 0 <= k < |s| ==> IsTrimmable(s[k])
  }

  /** How many trimmable characters open s. */
  function LeadingTrimmable(s: string): (n: nat)
    ensures n <= |s|
    ensures forall k :: 0 <= k < n ==> IsTrimmable(s[k])
    ensures n < |s| ==> !IsTrimmable(s[n])
  {
    if s == [] || !IsTrimmable(s[0]) then 0 else 1 + LeadingTrimmable(s[1..])
  }

  /** How many trimmable characters close s. */
  function TrailingTrimmable(s: string): (n: nat)
    ensures n <= |s|
    ensures forall k :: |s| - n <= k < |s| ==> IsTrimmable(s[k])
    ensures n < |s| ==> !IsTrimmable(s[|s| - 1 - n])
  {
    if s == [] || !IsTrimmable(s[|s| - 1]) then 0 else 1 + TrailingTrimmable(s[..|s| - 1])
  }

  /** String.trim: s without its leading and trailing trimmable characters. */
  function Trim(s: string): (t: string)
    ensures |t| <= |s|
    ensures t == [] <==> IsBlank(s)
    ensures t != [] ==> !IsTrimmable(t[0]) && !IsTrimmable(t[|t| - 1])
    ensures t != [] ==> LeadingTrimmable(s) + TrailingTrimmable(s) < |s|
    ensures t != [] ==> t == s[LeadingTrimmable(s)..|s| - TrailingTrimmable(s)]
  {
    var lo := LeadingTrimmable(s);
    if lo == |s| then
      []
    else
      var hi := |s| - TrailingTrimmable(s);
      assert lo < hi;
      s[lo..hi]
  }

  /** A string that neither starts nor ends with a trimmable character is its own trim. */
  lemma TrimOfTrimmed(s: string)
    requires s != [] ==> !IsTrimmable(s[0]) && !IsTrimmable(s[|s| - 1])
    ensures Trim(s) == s
  {
    if s != [] {
      assert LeadingTrimmable(s) == 0;
      assert TrailingTrimmable(s) == 0;
    }
  }

  /** Trimming twice is trimming once. */
  lemma TrimIdempotent(s: string)
    ensures Trim(Trim(s)) == Trim(s)
  {
    TrimOfTrimmed(Trim(s));
  }

  /** ASCII lower-casing of one character; every other character is left as it is. */
  function LowerChar(c: char): char {
    if 'A' <= c <= 'Z' then (c as int + 32) as char else c
  }

  /** ASCII lower-casing of a string, character by character. */
  function Lower(s: string): (r: string)
    ensures |r| == |s|
    ensures forall k :: 0 <= k < |s| ==> r[k] == LowerChar(s[k])
  {
    if s == [] then [] else [LowerChar(s[0])] + Lower(s[1..])
  }

  /** Lower-casing a piece is taking the piece of the lower-cased string. */
  lemma LowerSlice(s: string, i: nat, j: nat)
    requires i <= j <= |s|
    ensures Lower(s)[i..j] == Lower(s[i..j])
  {
  }

  /** t occurs in s as a contiguous piece (SQL LIKE '%t%'). */
  predicate Contains(s: string, t: string) {
    (|t| <= |s| && s[..|t|] == t) || (s != [] && Contains(s[1..], t))
  }

  /** Contains agrees with the plain definition: t is the slice of s at some offset. */
  lemma {:induction false} ContainsAt(s: string, t: string, i: nat)
    requires i + |t| <= |s|
    requires s[i..i + |t|] == t
    ensures Contains(s, t)
  {
    if i > 0 {
      assert s[1..][i - 1..i - 1 + |t|] == s[i..i + |t|];
      ContainsAt(s[1..], t, i - 1);
    }
  }

  /** A piece of s equal to t up to ASCII letter case is found in s ignoring case. */
  lemma ContainsIgnoringCase(s: string, t: string, i: nat)
    requires i + |t| <= |s|
    requires Lower(s[i..i + |t|]) == Lower(t)
    ensures Contains(Lower(s), Lower(t))
  {
    LowerSlice(s, i, i + |t|);
    ContainsAt(Lower(s), Lower(t), i);
  }

  /** Lexicographic order on character codes. */
  predicate LexLe(a: string, b: string) {
    a == [] || (b != [] && (a[0] < b[0] || (a[0] == b[0] && LexLe(a[1..], b[1..]))))
  }

  lemma {:induction false} LexLeTotal(a: string, b: string)
    ensures LexLe(a, b) || LexLe(b, a)
  {
    if a != [] && b != [] && a[0] == b[0] {
      LexLeTotal(a[1..], b[1..]);
    }
  }

  lemma {:induction false} LexLeTransitive(a: string, b: string, c: string)
    requires LexLe(a, b) && LexLe(b, c)
    ensures LexLe(a, c)
  {
    if a != [] && b != [] && c != [] && a[0] == b[0] == c[0] {
      LexLeTransitive(a[1..], b[1..], c[1..]);
    }
  }
}
