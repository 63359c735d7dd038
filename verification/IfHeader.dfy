/** The If header of WebDAV requests (section 9.4 of RFC 2518): what the server makes of its text. */
module IfHeader {
  import opened CStrings
  import opened Options
  import opened LockTable
  import opened LockTokens

  /**
    What the conditions are about: the lock table, the file of the request itself, the file behind a
    URL, if it has one, and the entity tag of a file, if there is such a file.
  */
  datatype Server = Server(
    guid: string,
    table: Table,
    own: string,
    toPath: string -> Option<string>,
    etagOf: string -> Option<string>)

  /** Fails answers 412 (Precondition Failed), Malformed 400 (Bad Request). */
  datatype Verdict = Holds | Fails | Malformed

  datatype Answer = Answer(verdict: Verdict, ids: seq<int>)

  const NOT: string := "not"

  // ---------- The header as a value ----------

  /** A token without white space and a quote, or a second bracket, in front. */
  function TokenBody(text: string): string {
    var t := SkipSpace(text);
    if t != [] && (t[0] == '\"' || t[0] == '<') then t[1..] else t
  }

  /** CheckTokenExpression: the id of a token that holds, or 0. */
  function TokenId(sv: Server, path: Option<string>, text: string): int {
    var id := GetLockIDFromOpaqueHeader(sv.guid, TokenBody(text));
    if path.Some? && !Associated(sv.table, path.value, id) then 0 else id
  }

  function SkipWeakTag(s: string): string {
    if |s| >= 2 && s[0] == 'W' && s[1] == '/' then s[2..] else s
  }

  /** The entity tag for a list: without a path, that of the request's own file. */
  function ETagFor(sv: Server, path: Option<string>): Option<string> {
    sv.etagOf(if path.Some? then path.value else sv.own)
  }

  /** CheckETagExpression. */
  predicate ETagHolds(sv: Server, path: Option<string>, text: string) {
    ETagFor(sv, path) == Some(SkipWeakTag(SkipSpace(text)))
  }

  function Judge(success: bool, negated: bool): Verdict {
    if success == negated then Fails else Holds
  }

  /** A token or an entity tag, from its bracket on: its verdict, the id it adds, and the text behind it. */
  function EvalTest(sv: Server, path: Option<string>, t: string, negated: bool): (r: (Verdict, seq<int>, string))
    ensures r.0 == Holds ==> |r.2| < |t|
  {
    if t != [] && t[0] == '<' then
      var e := Find(t, '>');
      if e == |t| then (Malformed, [], t)
      else
        var id := TokenId(sv, path, t[1..e]);
        (Judge(id != 0, negated), if id == 0 then [] else [id], SkipSpace(t[e + 1..]))
    else if t != [] && t[0] == '[' then
      var e := Find(t, ']');
      if e == |t| then (Malformed, [], t)
      else (Judge(ETagHolds(sv, path, t[1..e]), negated), [], SkipSpace(t[e + 1..]))
    else (Malformed, [], t)
  }

  /** One condition of a list. */
  function EvalCondition(sv: Server, path: Option<string>, s: string): (r: (Verdict, seq<int>, string))
    requires s != []
    ensures r.0 == Holds ==> |r.2| < |s|
  {
    var negated := StartsNoCase(s, NOT);
    EvalTest(sv, path, if negated then SkipSpace(s[|NOT|..]) else s, negated)
  }

  /** The conditions of a list, up to the first that does not hold. */
  function EvalList(sv: Server, path: Option<string>, s: string): Answer
    decreases |s|
  {
    if s == [] then Answer(Holds, [])
    else
      var (v, ids, rest) := EvalCondition(sv, path, s);
      if v != Holds then Answer(v, ids)
      else
        var a := EvalList(sv, path, rest);
        Answer(a.verdict, ids + a.ids)
  }

  /** A URL from its path on. */
  function SkipHttpPrefixAndHostName(url: string): (r: Option<string>)
    ensures r.Some? ==> |r.value| <= |url|
  {
    if url != [] && url[0] == '/' then Some(url)
    else
      var i := Find(url, '/');
      if i == |url| then None
      else
        var host := url[i + (if i + 1 < |url| && url[i + 1] == '/' then 2 else 1)..];
        Some(host[if Find(host, '/') < |host| then Find(host, '/') else 0..])
  }

  /** The file a list is about, and the text behind the list's tag; None is a bad tag. */
  function TakeTag(sv: Server, s: string): (r: Option<(Option<string>, string)>)
    ensures r.Some? ==> |r.value.1| <= |s|
  {
    if s == [] || s[0] != '<' then Some((None, s))
    else
      match SkipHttpPrefixAndHostName(s[1..])
      case None => None
      case Some(u) =>
        var e := Find(u, '>');
        if e == |u| then None else Some((sv.toPath(u[..e]), u[e + 1..]))
  }

  /** The list that s begins with, and the text behind it. */
  function EvalTaggedList(sv: Server, s: string): (r: (Answer, string))
    ensures r.0.verdict == Holds ==> |r.1| < |s|
  {
    match TakeTag(sv, SkipSpace(s))
    case None => (Answer(Malformed, []), "")
    case Some((path, rest)) =>
      var t := SkipSpace(rest);
      if t == [] || t[0] != '(' then (Answer(Malformed, []), "")
      else
        var u := SkipSpace(t[1..]);
        var e := Find(u, ')');
        if e == |u| then (Answer(Malformed, []), "")
        else (EvalList(sv, path, u[..e]), SkipSpace(u[e + 1..]))
  }

  /** CheckLockHeader on the text of the header: all lists have to hold. */
  function EvalHeader(sv: Server, s: string): Answer
    decreases |s|
  {
    if s == [] then Answer(Holds, [])
    else
      var (a, rest) := EvalTaggedList(sv, s);
      if a.verdict != Holds then a
      else
        var b := EvalHeader(sv, rest);
        Answer(b.verdict, a.ids + b.ids)
  }

  /** The answer when the ids `got` have been collected before. */
  function After(got: seq<int>, a: Answer): Answer {
    Answer(a.verdict, got + a.ids)
  }

  lemma ListFurther(sv: Server, path: Option<string>, s: string, got: seq<int>)
    requires s != []
    ensures var (v, ids, rest) := EvalCondition(sv, path, s);
      After(got, EvalList(sv, path, s)) ==
        if v != Holds then Answer(v, got + ids) else After(got + ids, EvalList(sv, path, rest))
  {
    hide EvalCondition;
    var (v, ids, rest) := EvalCondition(sv, path, s);
    assert got + (ids + EvalList(sv, path, rest).ids) == (got + ids) + EvalList(sv, path, rest).ids;
  }

  lemma HeaderFurther(sv: Server, s: string, got: seq<int>)
    requires s != []
    ensures var (a, rest) := EvalTaggedList(sv, s);
      After(got, EvalHeader(sv, s))
        == if a.verdict != Holds then After(got, a) else After(got + a.ids, EvalHeader(sv, rest))
  {
    hide EvalTaggedList;
    var (a, rest) := EvalTaggedList(sv, s);
    assert got + (a.ids + EvalHeader(sv, rest).ids) == (got + a.ids) + EvalHeader(sv, rest).ids;
  }

  lemma NoMore(sv: Server, path: Option<string>, s: string)
    requires s == []
    ensures EvalList(sv, path, s) == Answer(Holds, []) == EvalHeader(sv, s)
  {
  }

  // ---------- The header as a buffer ----------

  /** The buffer holds h with a NUL behind it, and NULs at `cuts`. */
  ghost predicate Patched(text: array<char>, h: string, cuts: set<nat>)
    reads text
  {
    && text.Length == |h| + 1 && NoNul(h)
    && forall k {:trigger text[k]} :: 0 <= k <= |h| ==> text[k] == if k == |h| || k in cuts then '\0' else h[k]
  }

  /** The C string at i ends at `end`. */
  ghost predicate Ends(h: string, cuts: set<nat>, i: nat, end: nat) {
    i <= end <= |h| && (end == |h| || end in cuts) && forall k :: i <= k < end ==> k !in cuts
  }

  /** The character at i. */
  method CharAt(text: array<char>, i: nat, ghost h: string, ghost cuts: set<nat>, ghost end: nat) returns (c: char)
    requires Patched(text, h, cuts) && Ends(h, cuts, i, end)
    ensures i <= end <= |h| && c == if i < end then h[i] else '\0'
    ensures (c == '\0' <==> i == end) && (i < end ==> Ends(h, cuts, i + 1, end))
  {
    c := text[i];
  }

  /** Puts a NUL at e. */
  method Cut(text: array<char>, e: nat, ghost h: string, ghost cuts: set<nat>, ghost from: nat, ghost end: nat)
    requires Patched(text, h, cuts) && Ends(h, cuts, from, end) && from <= e < end
    modifies text
    ensures Patched(text, h, cuts + {e}) && Ends(h, cuts + {e}, from, e) && Ends(h, cuts, e + 1, end)
  {
    text[e] := '\0';
  }

  /** Puts the character at e back. */
  method Mend(text: array<char>, e: nat, c: char, ghost h: string, ghost cuts: set<nat>)
    requires Patched(text, h, cuts + {e}) && e !in cuts && e < |h| && c == h[e]
    modifies text
    ensures Patched(text, h, cuts)
  {
    text[e] := c;
  }

  method SkipWhiteSpace(text: array<char>, i: nat, ghost h: string, ghost cuts: set<nat>, ghost end: nat)
    returns (j: nat)
    requires Patched(text, h, cuts) && Ends(h, cuts, i, end)
    ensures i <= j <= end && Part(h, j, end) == SkipSpace(Part(h, i, end))
    ensures Ends(h, cuts, j, end)
  {
    hide Part;
    j := i;
    while IsSpace(text[j])
      invariant i <= j <= end && SkipSpace(Part(h, j, end)) == SkipSpace(Part(h, i, end))
      decreases end - j
    {
      RestOfPart(h, j, end, 1);
      j := j + 1;
    }
  }

  /** strchr. */
  method StrChr(text: array<char>, i: nat, c: char, ghost h: string, ghost cuts: set<nat>, ghost end: nat)
    returns (found: bool, j: nat)
    requires Patched(text, h, cuts) && Ends(h, cuts, i, end) && c != '\0'
    ensures i <= j <= end && j == i + Find(Part(h, i, end), c) && (found <==> j < end) && (found ==> h[j] == c)
  {
    hide Part;
    j := i;
    while text[j] != '\0' && text[j] != c
      invariant i <= j <= end && j - i + Find(Part(h, j, end), c) == Find(Part(h, i, end), c)
      decreases end - j
    {
      RestOfPart(h, j, end, 1);
      j := j + 1;
    }
    found := text[j] == c;
  }

  /** The C string at i. */
  method ReadString(text: array<char>, i: nat, ghost h: string, ghost cuts: set<nat>, ghost end: nat)
    returns (s: string)
    requires Patched(text, h, cuts) && Ends(h, cuts, i, end)
    ensures s == Part(h, i, end)
  {
    var j := i;
    s := [];
    while text[j] != '\0'
      invariant i <= j <= end && s == Part(h, i, j)
      decreases end - j
    {
      s := s + [text[j]];
      j := j + 1;
    }
  }

  /**
    _strnicmp(text + i, word, strlen(word)) == 0; the comparison ends with the first difference, a NUL
    at the latest.
  */
  method HasPrefix(text: array<char>, i: nat, word: string, ghost h: string, ghost cuts: set<nat>, ghost end: nat)
    returns (has: bool)
    requires Patched(text, h, cuts) && Ends(h, cuts, i, end) && NoNul(word)
    ensures has <==> StartsNoCase(Part(h, i, end), word)
  {
    var k := 0;
    while k < |word|
      invariant k <= |word| && i + k <= end
      invariant forall m :: 0 <= m < k ==> ToLower(Part(h, i, end)[m]) == ToLower(word[m])
    {
      if ToLower(text[i + k]) != ToLower(word[k]) {
        return false;
      }
      assert i + k < end;
      k := k + 1;
    }
    return true;
  }

  lemma StartsLength(s: string, word: string)
    requires StartsNoCase(s, word)
    ensures |word| <= |s|
  {
  }

  lemma EndsFurther(h: string, cuts: set<nat>, i: nat, end: nat, j: nat)
    requires Ends(h, cuts, i, end) && i <= j <= end
    ensures Ends(h, cuts, j, end)
  {
  }

  lemma FindIsBehind(s: string, c: char)
    requires s != [] && s[0] != c
    ensures 0 < Find(s, c)
  {
  }

  /** The part of CWebDav that collects lock ids. */
  class LockIds {
    /** m_lockIds; its length is m_nLockTokens. */
    var ids: seq<int>

    constructor ()
      ensures ids == []
    {
      ids := [];
    }

    /** CheckTokenExpression. */
    method CheckToken(sv: Server, path: Option<string>, token: string) returns (ok: bool)
      modifies this
      ensures ok <==> TokenId(sv, path, token) != 0
      ensures ids == if ok then old(ids) + [TokenId(sv, path, token)] else old(ids)
    {
      var t := SkipSpace(token);
      if t != [] && (t[0] == '\"' || t[0] == '<') {
        t := t[1..];
      }
      var id := GetLockIDFromOpaqueHeader(sv.guid, t);
      if id == 0 {
        return false;
      }
      if path.Some? && !Associated(sv.table, path.value, id) {
        return false;
      }
      ids := ids + [id];
      return true;
    }

    /** One condition, from `trav` on. */
    method CheckCondition(sv: Server, path: Option<string>, text: array<char>, trav: nat, ghost h: string,
        ghost end: nat)
      returns (verdict: Verdict, next: nat)
      requires Patched(text, h, {end}) && Ends(h, {end}, trav, end) && trav < end <= |h|
      modifies this, text
      ensures Patched(text, h, {end})
      ensures var (v, got, rest) := EvalCondition(sv, path, Part(h, trav, end));
        && verdict == v && ids == old(ids) + got
        && (v == Holds ==> trav < next <= end && rest == Part(h, next, end) && Ends(h, {end}, next, end))
    {
      hide Part, SkipSpace, StartsNoCase, EvalTest, Patched, Ends;
      var t := trav;
      var negated := HasPrefix(text, t, NOT, h, {end}, end);
      if negated {
        StartsLength(Part(h, trav, end), NOT);
        RestOfPart(h, trav, end, |NOT|);
        EndsFurther(h, {end}, t, end, t + |NOT|);
        t := SkipWhiteSpace(text, t + |NOT|, h, {end}, end);
      }
      verdict, next := CheckTest(sv, path, text, t, negated, h, end);
    }

    /** What is between the brackets at t and e, read as a C string of its own. */
    method CheckInside(sv: Server, path: Option<string>, text: array<char>, t: nat, e: nat, open: char,
        ghost h: string, ghost end: nat)
      returns (success: bool)
      requires Patched(text, h, {end}) && Ends(h, {end}, t, end) && t < e < end <= |h|
      requires h[e] == if open == '<' then '>' else ']'
      modifies this, text
      ensures Patched(text, h, {end})
      ensures var inside := Part(h, t + 1, e);
        if open == '<' then
          && (success <==> TokenId(sv, path, inside) != 0)
          && ids == if success then old(ids) + [TokenId(sv, path, inside)] else old(ids)
        else (success <==> ETagHolds(sv, path, inside)) && ids == old(ids)
    {
      hide Part, TokenId, ETagHolds, Patched, Ends;
      var close := if open == '<' then '>' else ']';
      assert e !in {end};
      Cut(text, e, h, {end}, t, end);
      EndsFurther(h, {end} + {e}, t, e, t + 1);
      var inside := ReadString(text, t + 1, h, {end} + {e}, e);
      if open == '<' {
        success := CheckToken(sv, path, inside);
      } else {
        success := ETagHolds(sv, path, inside);
      }
      Mend(text, e, close, h, {end});
    }

    /** A token or an entity tag, from its bracket on. */
    method CheckTest(sv: Server, path: Option<string>, text: array<char>, t: nat, negated: bool, ghost h: string,
        ghost end: nat)
      returns (verdict: Verdict, next: nat)
      requires Patched(text, h, {end}) && Ends(h, {end}, t, end)
      modifies this, text
      ensures Patched(text, h, {end}) && t <= end <= |h|
      ensures var (v, got, rest) := EvalTest(sv, path, Part(h, t, end), negated);
        && verdict == v && ids == old(ids) + got
        && (v == Holds ==> t < next <= end && rest == Part(h, next, end) && Ends(h, {end}, next, end))
    {
      hide Part, SkipSpace, Find, TokenId, ETagHolds, Patched, Ends;
      var open := CharAt(text, t, h, {end}, end);
      if open != '<' && open != '[' {
        return Malformed, t;
      }
      var close := if open == '<' then '>' else ']';
      var found, e := StrChr(text, t, close, h, {end}, end);
      if !found {
        return Malformed, t;
      }
      FindIsBehind(Part(h, t, end), close);
      PartOfPart(h, t, end, 1, e - t);
      RestOfPart(h, t, end, e - t + 1);
      var success := CheckInside(sv, path, text, t, e, open, h, end);
      EndsFurther(h, {end}, t, end, e + 1);
      if success == negated {
        return Fails, e;
      }
      next := SkipWhiteSpace(text, e + 1, h, {end}, end);
      return Holds, next;
    }

    /** The conditions of one list, which ends at `end`. */
    method CheckList(sv: Server, path: Option<string>, text: array<char>, start: nat, end: nat, ghost h: string)
      returns (verdict: Verdict)
      requires Patched(text, h, {end}) && start <= end && Ends(h, {end}, start, end) && end <= |h|
      modifies this, text
      ensures Patched(text, h, {end})
      ensures Answer(verdict, ids) == After(old(ids), EvalList(sv, path, Part(h, start, end)))
    {
      hide Part, EvalCondition, EvalList, Patched, Ends;
      var trav := start;
      ghost var whole := After(ids, EvalList(sv, path, Part(h, start, end)));
      while trav < end
        invariant start <= trav <= end && Patched(text, h, {end}) && Ends(h, {end}, trav, end)
        invariant whole == After(ids, EvalList(sv, path, Part(h, trav, end)))
      {
        ListFurther(sv, path, Part(h, trav, end), ids);
        verdict, trav := CheckCondition(sv, path, text, trav, h, end);
        if verdict != Holds {
          return;
        }
      }
      NoMore(sv, path, Part(h, trav, end));
      return Holds;
    }

    /** The tag of a list: the file it names, and where the text behind the tag starts. */
    method CheckTag(sv: Server, text: array<char>, start: nat, ghost h: string)
      returns (ok: bool, path: Option<string>, next: nat)
      requires Patched(text, h, {}) && start <= |h|
      modifies text
      ensures Patched(text, h, {})
      ensures var r := TakeTag(sv, Part(h, start, |h|));
        ok == r.Some? && (ok ==> start <= next <= |h| && r.value == (path, Part(h, next, |h|)))
    {
      hide Part, Find, Patched, SkipHttpPrefixAndHostName;
      path, next := None, start;
      var c := CharAt(text, start, h, {}, |h|);
      if c != '<' {
        return true, path, next;
      }
      RestOfPart(h, start, |h|, 1);
      var u;
      ok, u := SkipHostName(text, start + 1, h);
      if !ok {
        return;
      }
      var e;
      ok, e := StrChr(text, u, '>', h, {}, |h|);
      if !ok {
        return;
      }
      StartOfPart(h, u, |h|, e - u);
      RestOfPart(h, u, |h|, e - u + 1);
      Cut(text, e, h, {}, u, |h|);
      var url := ReadString(text, u, h, {} + {e}, e);
      Mend(text, e, '>', h, {});
      return true, sv.toPath(url), e + 1;
    }

    method SkipHostName(text: array<char>, start: nat, ghost h: string) returns (ok: bool, u: nat)
      requires Patched(text, h, {}) && start <= |h|
      ensures var r := SkipHttpPrefixAndHostName(Part(h, start, |h|));
        ok == r.Some? && (ok ==> start <= u <= |h| && r.value == Part(h, u, |h|))
    {
      hide Part, Find, Patched;
      u := start;
      var c := CharAt(text, start, h, {}, |h|);
      if c == '/' {
        return true, u;
      }
      var slash;
      ok, slash := StrChr(text, start, '/', h, {}, |h|);
      if !ok {
        return;
      }
      ghost var i := slash - start;
      NextOfPart(h, start, |h|, i);
      RestOfPart(h, start, |h|, i + 1);
      c := CharAt(text, slash + 1, h, {}, |h|);
      if c == '/' {
        RestOfPart(h, start, |h|, i + 2);
        slash := slash + 2;
      } else {
        slash := slash + 1;
      }
      var found;
      found, u := StrChr(text, slash, '/', h, {}, |h|);
      if !found {
        u := slash;
      }
      RestOfPart(h, slash, |h|, u - slash);
    }

    /** One list with its tag; `next` is where the text behind it starts. */
    method CheckTaggedList(sv: Server, text: array<char>, start: nat, ghost h: string)
      returns (verdict: Verdict, next: nat)
      requires Patched(text, h, {}) && start <= |h|
      modifies this, text
      ensures Patched(text, h, {})
      ensures var (a, rest) := EvalTaggedList(sv, Part(h, start, |h|));
        && Answer(verdict, ids) == After(old(ids), a)
        && (verdict == Holds ==> start < next <= |h| && rest == Part(h, next, |h|))
    {
      hide Part, Find, SkipSpace, TakeTag, EvalList, Patched;
      var trav := SkipWhiteSpace(text, start, h, {}, |h|);
      var ok, path;
      ok, path, trav := CheckTag(sv, text, trav, h);
      if !ok {
        return Malformed, trav;
      }
      trav := SkipWhiteSpace(text, trav, h, {}, |h|);
      var c := CharAt(text, trav, h, {}, |h|);
      if c != '(' {
        return Malformed, trav;
      }
      RestOfPart(h, trav, |h|, 1);
      verdict, next := CheckConditions(sv, path, text, trav + 1, h);
    }

    /** The conditions of a list, from behind its parenthesis on. */
    method CheckConditions(sv: Server, path: Option<string>, text: array<char>, start: nat, ghost h: string)
      returns (verdict: Verdict, next: nat)
      requires Patched(text, h, {}) && start <= |h|
      modifies this, text
      ensures Patched(text, h, {})
      ensures var u := SkipSpace(Part(h, start, |h|));
        var e := Find(u, ')');
        if e == |u| then verdict == Malformed && ids == old(ids)
        else
          && Answer(verdict, ids) == After(old(ids), EvalList(sv, path, u[..e]))
          && (verdict == Holds ==> start < next <= |h| && SkipSpace(u[e + 1..]) == Part(h, next, |h|))
    {
      hide Part, Find, SkipSpace, EvalList, Patched;
      var trav := SkipWhiteSpace(text, start, h, {}, |h|);
      var found, end := StrChr(text, trav, ')', h, {}, |h|);
      if !found {
        return Malformed, trav;
      }
      StartOfPart(h, trav, |h|, end - trav);
      RestOfPart(h, trav, |h|, end - trav + 1);
      Cut(text, end, h, {}, trav, |h|);
      assert {} + {end} == {end};
      verdict := CheckList(sv, path, text, trav, end, h);
      Mend(text, end, ')', h, {});
      if verdict != Holds {
        return verdict, trav;
      }
      next := SkipWhiteSpace(text, end + 1, h, {}, |h|);
    }

    /** The whole header; its text is a C string, and is left as it was. */
    method CheckLockHeader(sv: Server, text: array<char>) returns (verdict: Verdict)
      requires text.Length > 0 && text[text.Length - 1] == '\0' && NoNul(text[..text.Length - 1])
      modifies this, text
      ensures text[..] == old(text[..])
      ensures Answer(verdict, ids) == After(old(ids), EvalHeader(sv, old(text[..text.Length - 1])))
    {
      ghost var h := text[..text.Length - 1];
      assert Patched(text, h, {});
      verdict := CheckLists(sv, text, h);
      assert text[..] == old(text[..]);
    }

    method CheckLists(sv: Server, text: array<char>, ghost h: string) returns (verdict: Verdict)
      requires Patched(text, h, {})
      modifies this, text
      ensures Patched(text, h, {})
      ensures Answer(verdict, ids) == After(old(ids), EvalHeader(sv, h))
    {
      hide Part, EvalTaggedList, EvalHeader, Patched;
      WholePart(h);
      var trav := 0;
      ghost var whole := After(ids, EvalHeader(sv, h));
      var c := CharAt(text, trav, h, {}, |h|);
      while c != '\0'
        invariant trav <= |h| && Patched(text, h, {}) && (c == '\0' <==> trav == |h|)
        invariant whole == After(ids, EvalHeader(sv, Part(h, trav, |h|)))
        decreases |h| - trav
      {
        HeaderFurther(sv, Part(h, trav, |h|), ids);
        verdict, trav := CheckTaggedList(sv, text, trav, h);
        if verdict != Holds {
          return;
        }
        c := CharAt(text, trav, h, {}, |h|);
      }
      NoMore(sv, None, Part(h, trav, |h|));
      return Holds;
    }
  }
}
