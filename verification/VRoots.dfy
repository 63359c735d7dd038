/** The table of virtual roots: sorting it, and finding the root that serves a URL. */
module VRoots {
  import opened CStrings

  /** VROOTINFO.  Unused entries have the URL "". */
  datatype VRoot = VRoot(url: string, numSlashes: nat, rootDir: bool, redirect: bool)

  // ---------- Slashes ----------

  /** How many slashes s has from i up to j. */
  function SlashesIn(s: string, i: nat, j: int): (n: nat)
    requires j <= |s|
    decreases j - i
  {
    if i >= j then 0 else (if IsSlash(s[i]) then 1 else 0) + SlashesIn(s, i + 1, j)
  }

  /** GetNextSlash: the first slash from i on, or the end. */
  function NextSlash(s: string, i: nat): (j: nat)
    ensures j <= |s| && (j < |s| ==> i <= j && IsSlash(s[j]))
    decreases |s| - i
  {
    if i >= |s| then |s| else if IsSlash(s[i]) then i else NextSlash(s, i + 1)
  }

  /** n slashes further than p. */
  function Reach(s: string, p: nat, n: nat): (q: nat)
    requires p <= |s| && (p < |s| ==> IsSlash(s[p]))
    ensures q <= |s| && (q < |s| ==> IsSlash(s[q]))
    decreases n
  {
    if n == 0 then p else Reach(s, NextSlash(s, p + 1), n - 1)
  }

  /** The slashes of a URL behind its first character and before its last. */
  method CountSignificantSlashesInURL(url: string) returns (slashes: nat)
    ensures slashes == SlashesIn(url, 1, |url| - 1)
  {
    slashes := 0;
    var j := 1;
    while j < |url| - 1
      invariant 1 <= j && slashes + SlashesIn(url, j, |url| - 1) == SlashesIn(url, 1, |url| - 1)
    {
      if IsSlash(url[j]) {
        slashes := slashes + 1;
      }
      j := j + 1;
    }
  }

  // ---------- Reading the table ----------

  /** An entry with a path; `rootPath` says that the path is just "\". */
  method InitPathEntry(name: string, rootPath: bool) returns (v: VRoot)
    requires name != ""
    ensures v.url == Trimmed(name) && v.rootDir == rootPath && !v.redirect
    ensures v.numSlashes == SlashesIn(v.url, 1, |v.url| - 1)
    ensures !DoubleSlash(name) ==> (Sound(v) <==> !(rootPath && |v.url| == 2))
  {
    var url := name;
    if |url| != 1 && IsSlash(url[|url| - 1]) {
      url := url[..|url| - 1];
    }
    var slashes := CountSignificantSlashesInURL(url);
    return VRoot(url, slashes, rootPath, false);
  }

  /**
    An entry that redirects: no other value is read, and its slashes are not counted.  So it redirects
    the URLs under its name if the name is one segment, and no URL otherwise.
  */
  method InitRedirectEntry(name: string) returns (v: VRoot)
    requires name != ""
    ensures v.redirect && (v.url == name || (IsSlash(name[|name| - 1]) && name == v.url + [name[|name| - 1]]))
    ensures !DoubleSlash(name) ==> Named(v) && forall input: string :: input != "" ==>
      (Hits(v, input) <==> Serves(v, input) && (|v.url| == 1 || SlashesIn(v.url, 1, |v.url| - 1) == 0))
  {
    var url := name;
    if |url| != 1 && IsSlash(url[|url| - 1]) {
      url := url[..|url| - 1];
    }
    v := VRoot(url, 0, false, true);
    if !DoubleSlash(name) {
      forall input: string | input != ""
        ensures Hits(v, input) <==> Serves(v, input) && (|v.url| == 1 || SlashesIn(v.url, 1, |v.url| - 1) == 0)
      {
        if |v.url| > 1 {
          RedirectHits(v, input);
        }
      }
    }
  }

  /** A name that still ends in a slash when one is taken off. */
  predicate DoubleSlash(name: string) {
    |name| > 2 && IsSlash(name[|name| - 1]) && IsSlash(name[|name| - 2])
  }

  /** A name without the slash at its end. */
  function Trimmed(name: string): string
    requires name != ""
  {
    if |name| != 1 && IsSlash(name[|name| - 1]) then name[..|name| - 1] else name
  }

  /** Of a name at most one slash is taken off, and then it is well-formed exactly if it did not end in two. */
  lemma NamedExactly(name: string, v: VRoot)
    requires name != "" && v.url == Trimmed(name)
    ensures v.url == name || (name == v.url + [name[|name| - 1]] && IsSlash(name[|name| - 1]))
    ensures Named(v) <==> !DoubleSlash(name)
  {
  }

  // ---------- Sorting ----------

  function Total(s: seq<VRoot>): nat {
    if s == [] then 0 else |s[0].url| + Total(s[1..])
  }

  /** Every entry's URL length times its position: less, the more the long ones are in front. */
  function Disorder(s: seq<VRoot>): nat {
    if s == [] then 0 else Total(s[1..]) + Disorder(s[1..])
  }

  function Swapped(s: seq<VRoot>, i: nat): (r: seq<VRoot>)
    requires i + 1 < |s|
    ensures |r| == |s|
  {
    s[i := s[i + 1]][i + 1 := s[i]]
  }

  lemma {:induction false} SwapHelps(s: seq<VRoot>, i: nat)
    requires i + 1 < |s|
    ensures Total(Swapped(s, i)) == Total(s)
    ensures |s[i].url| < |s[i + 1].url| ==> Disorder(Swapped(s, i)) < Disorder(s)
  {
    var r := Swapped(s, i);
    if i == 0 {
      assert r[1..][1..] == s[1..][1..] && r[1] == s[0] && r[0] == s[1];
      assert Total(r[1..]) == |s[0].url| + Total(s[1..][1..]);
      assert Disorder(r[1..]) == Total(s[1..][1..]) + Disorder(s[1..][1..]);
    } else {
      assert r[1..] == Swapped(s[1..], i - 1);
      SwapHelps(s[1..], i - 1);
    }
  }

  predicate Descending(s: seq<VRoot>) {
    forall i, j :: 0 <= i < j < |s| ==> |s[i].url| >= |s[j].url|
  }

  lemma {:induction false} StepsDescend(s: seq<VRoot>, i: nat, j: nat)
    requires forall k :: 0 <= k < |s| - 1 ==> |s[k].url| >= |s[k + 1].url|
    requires i < j < |s|
    ensures |s[i].url| >= |s[j].url|
    decreases j
  {
    if i + 1 < j {
      StepsDescend(s, i, j - 1);
    }
    assert |s[j - 1].url| >= |s[j - 1 + 1].url|;
  }

  /** The entries of `s` whose URL has `length` characters, in their order. */
  function OfLength(s: seq<VRoot>, length: nat): seq<VRoot> {
    if s == [] then [] else (if |s[0].url| == length then [s[0]] else []) + OfLength(s[1..], length)
  }

  lemma {:induction false} SwapKeepsOrder(s: seq<VRoot>, i: nat, length: nat)
    requires i + 1 < |s| && |s[i].url| != |s[i + 1].url|
    ensures OfLength(Swapped(s, i), length) == OfLength(s, length)
  {
    var r := Swapped(s, i);
    if i == 0 {
      assert r[1..][1..] == s[1..][1..] && r[1] == s[0] && r[0] == s[1];
      assert OfLength(r[1..], length) == (if |s[0].url| == length then [s[0]] else []) + OfLength(s[1..][1..], length);
      assert OfLength(s[1..], length) == (if |s[1].url| == length then [s[1]] else []) + OfLength(s[1..][1..], length);
    } else {
      assert r[1..] == Swapped(s[1..], i - 1);
      SwapKeepsOrder(s[1..], i - 1, length);
    }
  }

  /** The same entries, those of one length in the same order. */
  ghost predicate Rearranged(s: seq<VRoot>, r: seq<VRoot>) {
    multiset(s) == multiset(r) && forall length: nat :: OfLength(s, length) == OfLength(r, length)
  }

  /** CVRoots, as far as matching goes; its reference count is in module TableLifetime. */
  class VRootTable {
    /** m_pVRoots; null if there are no roots, or no memory for them. */
    var vroots: array?<VRoot>

    constructor (entries: array?<VRoot>)
      modifies entries
      ensures vroots == entries
      ensures entries != null ==> Descending(entries[..]) && Rearranged(old(entries[..]), entries[..])
    {
      vroots := entries;
      new;
      if entries != null {
        Sort(entries);
      }
    }

    /** The sort ends: each pass that swaps lowers the disorder. */
    static method Sort(a: array<VRoot>)
      modifies a
      ensures Descending(a[..]) && Rearranged(old(a[..]), a[..])
    {
      var change := true;
      ghost var before := Disorder(a[..]) + 1;
      while change
        invariant Rearranged(old(a[..]), a[..]) && Disorder(a[..]) < before
        invariant !change ==> Descending(a[..])
        decreases change, Disorder(a[..])
      {
        before := Disorder(a[..]) + 1;
        change := Pass(a);
      }
    }

    static method Swap(a: array<VRoot>, i: nat)
      requires i + 1 < a.Length
      modifies a
      ensures a[..] == Swapped(old(a[..]), i)
    {
      var temp := a[i + 1];
      a[i + 1] := a[i];
      a[i] := temp;
    }

    static method Pass(a: array<VRoot>) returns (change: bool)
      modifies a
      ensures Rearranged(old(a[..]), a[..])
      ensures if change then Disorder(a[..]) < old(Disorder(a[..])) else Descending(a[..]) && a[..] == old(a[..])
    {
      hide Disorder, Rearranged, Swapped;
      change := false;
      var i: nat := 0;
      NotRearranged(a[..]);
      while i < a.Length - 1
        invariant i <= a.Length && (i == 0 || i < a.Length) && Rearranged(old(a[..]), a[..])
        invariant if change then Disorder(a[..]) < old(Disorder(a[..])) else a[..] == old(a[..])
        invariant !change ==> forall k :: 0 <= k < i ==> |a[k].url| >= |a[k + 1].url|
      {
        if |a[i].url| < |a[i + 1].url| {
          SwapHelps(a[..], i);
          RearrangedBySwap(old(a[..]), a[..], i);
          Swap(a, i);
          change := true;
        }
        i := i + 1;
      }
      if !change {
        forall j, k | 0 <= j < k < a.Length ensures |a[..][j].url| >= |a[..][k].url| {
          StepsDescend(a[..], j, k);
        }
      }
    }

    /** The first root in the table that the URL hits; the URL is the text of a request. */
    method MatchVRoot(input: string) returns (found: bool, at: nat)
      requires input != ""
      ensures found ==>
        vroots != null && at < vroots.Length && Hits(vroots[at], input)
          && forall k :: 0 <= k < at ==> !Hits(vroots[k], input)
      ensures !found ==> vroots == null || forall k :: 0 <= k < vroots.Length ==> !Hits(vroots[k], input)
      ensures vroots != null && InOrder(vroots[..]) ==>
        if found then Serves(vroots[at], input)
          && forall v :: v in vroots[..] && Serves(v, input) ==> |v.url| <= |vroots[at].url|
        else forall v :: v in vroots[..] ==> !Serves(v, input)
    {
      found, at := FirstHit(input);
      if vroots != null && InOrder(vroots[..]) {
        FirstHitIsLongest(vroots[..], input, if found then at else vroots.Length);
      }
    }

    /** The loop over the table. */
    method FirstHit(input: string) returns (found: bool, at: nat)
      requires input != ""
      ensures found ==>
        vroots != null && at < vroots.Length && Hits(vroots[at], input)
          && forall k :: 0 <= k < at ==> !Hits(vroots[k], input)
      ensures !found ==> vroots == null || forall k :: 0 <= k < vroots.Length ==> !Hits(vroots[k], input)
    {
      hide SlashesIn, NextSlash, Reach;
      at := 0;
      if vroots == null {
        return false, at;
      }
      var inputSlashes := CountSignificantSlashesInURL(input);
      var firstSlashInit := NextSlash(input, 1);
      while at < vroots.Length
        invariant at <= vroots.Length && forall k :: 0 <= k < at ==> !Hits(vroots[k], input)
      {
        var v := vroots[at];
        var len: int := |v.url|;
        if v.rootDir && len != 1 {
          len := len - 1;
        }
        if len != 0 && |input| >= len {
          if len == 1 {
            return true, at;
          }
          if inputSlashes >= v.numSlashes {
            var urlLen := Follow(input, firstSlashInit, v.numSlashes);
            if urlLen == |v.url| && SameNoCase(input[..urlLen], v.url) {
              return true, at;
            }
          }
        }
        at := at + 1;
      }
      return false, at;
    }
  }

  /** Skips n slashes; the end of the URL is never passed. */
  method Follow(input: string, first: nat, n: nat) returns (p: nat)
    requires first == NextSlash(input, 1) && SlashesIn(input, 1, |input| - 1) >= n
    ensures p == Reach(input, first, n)
  {
    hide NextSlash, SlashesIn;
    p := first;
    var left: nat := n;
    ghost var from: nat := 1;
    while left > 0
      invariant 0 <= left <= n && p <= |input| && p == NextSlash(input, from)
      invariant Reach(input, p, left) == Reach(input, first, n)
      invariant 1 <= from && SlashesIn(input, from, |input| - 1) >= left
    {
      SlashAhead(input, from);
      from := p + 1;
      p := NextSlash(input, p + 1);
      left := left - 1;
    }
  }

  /** If slashes are left before the last character, the next one is before it. */
  lemma {:induction false} SlashAhead(s: string, i: nat)
    requires SlashesIn(s, i, |s| - 1) > 0
    ensures NextSlash(s, i) < |s| - 1 && SlashesIn(s, i, |s| - 1) == 1 + SlashesIn(s, NextSlash(s, i) + 1, |s| - 1)
    decreases |s| - i
  {
    if !IsSlash(s[i]) {
      SlashAhead(s, i + 1);
    }
  }

  lemma NotRearranged(s: seq<VRoot>)
    ensures Rearranged(s, s)
  {
  }

  lemma RearrangedBySwap(s: seq<VRoot>, r: seq<VRoot>, i: nat)
    requires Rearranged(s, r) && i + 1 < |r| && |r[i].url| != |r[i + 1].url|
    ensures Rearranged(s, Swapped(r, i))
  {
    forall length: nat ensures OfLength(Swapped(r, i), length) == OfLength(r, length) {
      SwapKeepsOrder(r, i, length);
    }
    assert multiset(Swapped(r, i)) == multiset(r) by {
      assert r == r[..i] + [r[i], r[i + 1]] + r[i + 2..];
      assert Swapped(r, i) == r[..i] + [r[i + 1], r[i]] + r[i + 2..];
    }
  }

  // ---------- Matching ----------

  /** _memicmp(a, b, n) == 0 on n characters. */
  predicate SameNoCase(a: string, b: string) {
    |a| == |b| && forall i :: 0 <= i < |a| ==> ToLower(a[i]) == ToLower(b[i])
  }

  /** The test that MatchVRoot makes. */
  predicate Hits(v: VRoot, input: string) {
    var len := if v.rootDir && |v.url| != 1 then |v.url| - 1 else |v.url|;
    && len != 0 && |input| >= len
    && (len == 1
        || (SlashesIn(input, 1, |input| - 1) >= v.numSlashes
            && Reach(input, NextSlash(input, 1), v.numSlashes) == |v.url|
            && SameNoCase(input[..|v.url|], v.url)))
  }

  /** What a root is meant to serve: "/" everything, another one the URLs it is a prefix of, segment by segment. */
  predicate Serves(v: VRoot, input: string) {
    |v.url| == 1
    || (1 < |v.url| <= |input| && SameNoCase(input[..|v.url|], v.url)
      && (|input| == |v.url| || IsSlash(input[|v.url|])))
  }

  /** A name as Init leaves it: no slash at the end. */
  predicate Named(v: VRoot) {
    |v.url| == 1 || (|v.url| > 1 && !IsSlash(v.url[|v.url| - 1]))
  }

  lemma {:induction false} ReachesEnd(s: string, i: nat, m: nat)
    requires i <= m <= |s| && (m < |s| ==> IsSlash(s[m]))
    ensures Reach(s, NextSlash(s, i), SlashesIn(s, i, m)) == m
    decreases m - i
  {
    if i < m {
      ReachesEnd(s, i + 1, m);
    }
  }

  lemma {:induction false} SameSlashes(a: string, b: string, i: nat, m: nat)
    requires m <= |a| && m <= |b| && forall k :: 0 <= k < m ==> ToLower(a[k]) == ToLower(b[k])
    ensures SlashesIn(a, i, m) == SlashesIn(b, i, m)
    decreases m - i
  {
    if i < m {
      assert IsSlash(a[i]) <==> IsSlash(b[i]);
      SameSlashes(a, b, i + 1, m);
    }
  }

  lemma {:induction false} SlashesGrow(s: string, i: nat, m: int, k: int)
    requires m <= k <= |s|
    ensures SlashesIn(s, i, m) <= SlashesIn(s, i, k)
    decreases k - i
  {
    if i < m {
      SlashesGrow(s, i + 1, m, k);
    }
  }

  /** Slashes up to the last character are all there are if that is none. */
  lemma {:induction false} LastIsNone(s: string, i: nat)
    requires s != "" && !IsSlash(s[|s| - 1])
    ensures SlashesIn(s, i, |s|) == SlashesIn(s, i, |s| - 1)
    decreases |s| - i
  {
    if i < |s| - 1 {
      LastIsNone(s, i + 1);
    }
  }

  lemma SameFront(input: string, url: string)
    requires |url| <= |input| && SameNoCase(input[..|url|], url)
    ensures forall k :: 0 <= k < |url| ==> ToLower(input[k]) == ToLower(url[k])
  {
    assert forall k :: 0 <= k < |url| ==> input[..|url|][k] == input[k];
  }

  /** For a URL that starts with the root's name, how many slashes have to be skipped to get behind it. */
  lemma BehindName(v: VRoot, input: string)
    requires 1 < |v.url| <= |input| && Named(v) && SameNoCase(input[..|v.url|], v.url)
    requires |input| == |v.url| || IsSlash(input[|v.url|])
    ensures Reach(input, NextSlash(input, 1), SlashesIn(v.url, 1, |v.url| - 1)) == |v.url|
    ensures SlashesIn(input, 1, |input| - 1) >= SlashesIn(v.url, 1, |v.url| - 1)
  {
    hide SlashesIn, NextSlash, Reach, SameNoCase;
    var m := |v.url|;
    SameFront(input, v.url);
    ReachesEnd(input, 1, m);
    LastIsNone(v.url, 1);
    SameSlashes(input, v.url, 1, m);
    SameSlashes(input, v.url, 1, m - 1);
    SlashesGrow(input, 1, m - 1, |input| - 1);
  }

  /**
    The test is right for every root with a path, except that a root directory with a name of two
    characters hits every URL.
  */
  lemma HitsIsServes(v: VRoot, input: string)
    requires Named(v) && v.numSlashes == SlashesIn(v.url, 1, |v.url| - 1) && input != ""
    ensures !(v.rootDir && |v.url| == 2) ==> (Hits(v, input) <==> Serves(v, input))
    ensures v.rootDir && |v.url| == 2 ==> Hits(v, input)
  {
    hide SlashesIn, NextSlash, Reach, SameNoCase;
    if |v.url| > 1 && Serves(v, input) {
      BehindName(v, input);
    }
  }

  /** A redirecting root hits what it serves if its name is one segment; otherwise it hits nothing. */
  lemma RedirectHits(v: VRoot, input: string)
    requires Named(v) && v.numSlashes == 0 && !v.rootDir && input != "" && |v.url| > 1
    ensures Hits(v, input) <==> Serves(v, input) && SlashesIn(v.url, 1, |v.url| - 1) == 0
  {
    hide SlashesIn, NextSlash, SameNoCase;
    if |v.url| <= |input| && SameNoCase(input[..|v.url|], v.url) {
      InnerSlash(v.url, input);
      if Serves(v, input) {
        BehindName(v, input);
      }
    }
  }

  /** A slash inside the name is one inside the URL. */
  lemma InnerSlash(url: string, input: string)
    requires 0 < |url| <= |input| && SameNoCase(input[..|url|], url)
    ensures SlashesIn(url, 1, |url| - 1) > 0 ==> NextSlash(input, 1) < |url| - 1
  {
    hide SlashesIn, NextSlash, SameNoCase;
    SameFront(input, url);
    SameSlashes(input, url, 1, |url| - 1);
    if SlashesIn(url, 1, |url| - 1) > 0 {
      EarlySlash(input, 1, |url| - 1);
    }
  }

  lemma {:induction false} EarlySlash(s: string, i: nat, m: int)
    requires m <= |s| && SlashesIn(s, i, m) > 0
    ensures NextSlash(s, i) < m
    decreases m - i
  {
    if !IsSlash(s[i]) {
      EarlySlash(s, i + 1, m);
    }
  }

  /**
    An entry that is matched as it is meant: unused, or named and with its slashes counted, and no
    short root directory.
  */
  predicate Sound(v: VRoot) {
    || (v.url == "" && !v.rootDir)
    || (Named(v) && !(v.rootDir && |v.url| == 2) && v.numSlashes == SlashesIn(v.url, 1, |v.url| - 1))
  }

  /** A table as the constructor leaves it, of sound entries. */
  predicate InOrder(table: seq<VRoot>) {
    Descending(table) && forall v :: v in table ==> Sound(v)
  }

  /** Entries made from names with a path are sound, but for short root directories. */
  lemma PathEntriesAreSound(name: string, v: VRoot)
    requires name != "" && v.url == Trimmed(name) && v.numSlashes == SlashesIn(v.url, 1, |v.url| - 1)
    requires !DoubleSlash(name)
    ensures Sound(v) <==> !(v.rootDir && |v.url| == 2)
  {
  }

  /**
    In a sorted table of sound entries, what MatchVRoot finds is the longest root that serves the URL;
    it finds none only if none serves it.
  */
  lemma FirstHitIsLongest(table: seq<VRoot>, input: string, at: nat)
    requires input != "" && InOrder(table)
    requires at <= |table| && (at < |table| ==> Hits(table[at], input))
      && forall k :: 0 <= k < at ==> !Hits(table[k], input)
    ensures if at < |table|
      then Serves(table[at], input)
        && forall k :: 0 <= k < |table| && Serves(table[k], input) ==> |table[k].url| <= |table[at].url|
      else forall k :: 0 <= k < |table| ==> !Serves(table[k], input)
  {
    hide Hits, Serves, Named, SlashesIn;
    forall k | 0 <= k < |table| ensures Serves(table[k], input) ==> Hits(table[k], input) {
      SoundHits(table[k], input);
    }
    if at < |table| {
      SoundHits(table[at], input);
    }
  }

  lemma SoundHits(v: VRoot, input: string)
    requires Sound(v) && input != ""
    ensures Hits(v, input) <==> Serves(v, input)
  {
    hide SlashesIn, NextSlash, Reach, SameNoCase;
    if v.url != "" {
      HitsIsServes(v, input);
    }
  }
}
