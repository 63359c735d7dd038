/** Looking for things in C strings. */
module CStrings {

  /** A C string: it has no NUL inside. */
  predicate NoNul(s: string) {
    forall i :: 0 <= i < |s| ==> s[i] != '\0'
  }

  /** C's isspace. */
  predicate IsSpace(c: char) {
    c == ' ' || c == '\t' || c == '\n' || c == '\r' || c == '\U{000B}' || c == '\U{000C}'
  }

  /** C's isdigit. */
  predicate IsDigit(c: char) {
    '0' <= c <= '9'
  }

  /** A separator in paths and URLs, of either kind. */
  predicate IsSlash(c: char) {
    c == '/' || c == '\\'
  }

  predicate SpaceAt(s: string, i: int) {
    0 <= i < |s| && IsSpace(s[i])
  }

  /** The length of the white space that s begins with. */
  function LeadingSpace(s: string): (n: nat)
    ensures n <= |s|
    ensures forall i :: 0 <= i < n ==> IsSpace(s[i])
    ensures n < |s| ==> !IsSpace(s[n])
  {
    if s == [] || !IsSpace(s[0]) then 0 else 1 + LeadingSpace(s[1..])
  }

  lemma {:induction false} LeadingSpaceUnique(s: string, n: nat)
    requires n <= |s| && (forall i :: 0 <= i < n ==> IsSpace(s[i])) && (n < |s| ==> !IsSpace(s[n]))
    ensures LeadingSpace(s) == n
  {
    var m := LeadingSpace(s);
    assert m < n ==> SpaceAt(s, m);
    assert n < m ==> SpaceAt(s, n);
  }

  function SkipSpace(s: string): (t: string)
    ensures |t| <= |s| && (t != [] ==> !IsSpace(t[0]))
  {
    if s != [] && IsSpace(s[0]) then SkipSpace(s[1..]) else s
  }

  /** strchr: the first position of c in s, or |s|. */
  function Find(s: string, c: char): (i: nat)
    ensures i <= |s| && (i < |s| ==> s[i] == c) && c !in s[..i]
  {
    if s == [] || s[0] == c then 0 else 1 + Find(s[1..], c)
  }

  /** tolower, on the ASCII letters. */
  function ToLower(c: char): (l: char)
    ensures l == '/' <==> c == '/'
    ensures l == '\\' <==> c == '\\'
    ensures l == '\0' <==> c == '\0'
  {
    if 'A' <= c <= 'Z' then (c as int + 32) as char else c
  }

  const CAPITALS: string := "ABCDEFGHIJKLMNOPQRSTUVWXYZ"
  const SMALL: string := "abcdefghijklmnopqrstuvwxyz"

  /** Each capital letter has its small one; every other character stays as it is. */
  lemma LowerCaseExactly(k: nat, c: char)
    ensures k < 26 ==> ToLower(CAPITALS[k]) == SMALL[k]
    ensures ToLower(c) == c <==> c !in CAPITALS
  {
    forall i: nat | i < 26
      ensures CAPITALS[i] as int == 65 + i && SMALL[i] as int == 97 + i && ToLower(CAPITALS[i]) == SMALL[i]
    {
      LettersInOrder(i);
    }
    if 'A' <= c <= 'Z' {
      assert CAPITALS[c as int - 65] == c;
    }
  }

  lemma LettersInOrder(i: nat)
    requires i < 26
    ensures CAPITALS[i] as int == 65 + i && SMALL[i] as int == 97 + i
  {
  }

  /** The character classes by the codes of their characters. */
  lemma ClassesByCode(c: char)
    ensures IsSpace(c) <==> c as int in {9, 10, 11, 12, 13, 32}
    ensures IsDigit(c) <==> 48 <= c as int < 58
    ensures IsSlash(c) <==> c as int in {47, 92}
  {
  }

  /** _strnicmp(s, word, strlen(word)) == 0. */
  predicate StartsNoCase(s: string, word: string) {
    |s| >= |word| && forall i :: 0 <= i < |word| ==> ToLower(s[i]) == ToLower(word[i])
  }

  lemma StartsInFront(a: string, b: string, word: string)
    requires |a| >= |word|
    ensures StartsNoCase(a + b, word) <==> StartsNoCase(a, word)
  {
    assert forall i :: 0 <= i < |word| ==> (a + b)[i] == a[i];
  }

  predicate AllSpace(s: string) {
    forall c :: c in s ==> IsSpace(c)
  }

  lemma {:induction false} SkipAllSpace(pad: string, s: string)
    requires AllSpace(pad)
    ensures SkipSpace(pad + s) == SkipSpace(s)
    ensures (s != [] ==> !IsSpace(s[0])) ==> SkipSpace(pad + s) == s
  {
    if pad == [] {
      assert pad + s == s;
    } else {
      assert (pad + s)[1..] == pad[1..] + s;
      SkipAllSpace(pad[1..], s);
    }
  }

  lemma {:induction false} FindBehind(a: string, c: char, b: string)
    requires c !in a
    ensures Find(a + [c] + b, c) == |a|
  {
    var s := a + [c] + b;
    if a != [] {
      assert s[1..] == a[1..] + [c] + b;
      FindBehind(a[1..], c, b);
    }
  }

  // ---------- Parts ----------

  lemma Regroup(a: string, b: string, c: string)
    ensures (a + b) + c == a + (b + c)
  {
  }

  function Part(h: string, i: nat, j: nat): (r: string)
    requires i <= j <= |h|
    ensures |r| == j - i && (i < j ==> r[0] == h[i])
  {
    h[i..j]
  }

  lemma PartOfPart(h: string, a: nat, b: nat, i: nat, j: nat)
    requires a <= b <= |h| && i <= j <= b - a
    ensures Part(h, a, b)[i..j] == Part(h, a + i, a + j)
  {
    assert forall k :: 0 <= k < j - i ==> h[a..b][i..j][k] == h[a + i..a + j][k];
  }

  lemma RestOfPart(h: string, a: nat, b: nat, i: nat)
    requires a <= b <= |h| && i <= b - a
    ensures Part(h, a, b)[i..] == Part(h, a + i, b)
  {
    assert forall k :: 0 <= k < b - a - i ==> h[a..b][i..][k] == h[a + i..b][k];
  }

  lemma JoinParts(h: string, a: nat, b: nat, c: nat)
    requires a <= b <= c <= |h|
    ensures Part(h, a, b) + Part(h, b, c) == Part(h, a, c)
  {
  }

  lemma StartOfPart(h: string, a: nat, b: nat, j: nat)
    requires a <= b <= |h| && j <= b - a
    ensures Part(h, a, b)[..j] == Part(h, a, a + j)
  {
    PartOfPart(h, a, b, 0, j);
    assert Part(h, a, b)[0..j] == Part(h, a, b)[..j];
  }

  lemma NextOfPart(h: string, a: nat, b: nat, i: nat)
    requires a <= b <= |h| && i < b - a
    ensures Part(h, a, b)[i] == h[a + i] && (i + 1 < b - a ==> Part(h, a, b)[i + 1] == h[a + i + 1])
  {
  }

  lemma WholePart(h: string)
    ensures Part(h, 0, |h|) == h
  {
  }
}
