/**
  The If header on every text, well formed or not: which texts the server reads as lists of tests, and
  where it stops on the others.  Nothing here is said in terms of the functions that read the text.
*/
module IfTexts {
  import opened CStrings
  import opened Options
  import opened LockTable
  import opened LockTokens
  import opened IfHeader
  import opened IfGrammar

  // ---------- A test in the text ----------

  /** A bracketed test as it stands in the text, perhaps with "not" in front. */
  datatype Raw = Raw(negation: string, pad: string, open: char, inside: string, after: string)

  function Closing(open: char): char {
    if open == '<' then '>' else ']'
  }

  predicate RawOk(r: Raw) {
    && (r.negation == "" ==> r.pad == "")
    && (r.negation != "" ==> |r.negation| == 3 && StartsNoCase(r.negation, "not"))
    && AllSpace(r.pad) && AllSpace(r.after)
    && (r.open == '<' || r.open == '[') && Closing(r.open) !in r.inside
  }

  /** The test in front of `more`. */
  function RawText(r: Raw, more: string): string {
    r.negation + (r.pad + Bracketed(r, more))
  }

  function Bracketed(r: Raw, more: string): string {
    ([r.open] + r.inside) + ([Closing(r.open)] + (r.after + more))
  }

  /** Whether what is between the brackets holds. */
  predicate InsideHolds(sv: Server, path: Option<string>, r: Raw) {
    if r.open == '<' then TokenId(sv, path, r.inside) != 0 else ETagHolds(sv, path, r.inside)
  }

  predicate RawHolds(sv: Server, path: Option<string>, r: Raw) {
    InsideHolds(sv, path, r) != (r.negation != "")
  }

  /** The id of a token that is there and asked for. */
  function RawId(sv: Server, path: Option<string>, r: Raw): seq<int> {
    if r.open == '<' && TokenId(sv, path, r.inside) != 0 then [TokenId(sv, path, r.inside)] else []
  }

  ghost predicate BeginsWithRaw(s: string, r: Raw, more: string) {
    s == RawText(r, more) && RawOk(r) && Solid(more)
  }

  ghost predicate NoTest(s: string) {
    forall r, more :: !BeginsWithRaw(s, r, more)
  }

  lemma RestOfFront(a: string, b: string)
    ensures (a + b)[|a|..] == b
  {
  }

  /** A test in the text is read as it stands there. */
  lemma RawIsRead(sv: Server, path: Option<string>, s: string, r: Raw, more: string)
    requires BeginsWithRaw(s, r, more)
    ensures s != []
    ensures var v := if RawHolds(sv, path, r) then Holds else Fails;
      EvalCondition(sv, path, s) == (v, RawId(sv, path, r), more)
  {
    hide EvalTest, Solid, SkipSpace, StartsNoCase, RawHolds, RawId;
    RawFront(r, more);
    BracketedIsRead(sv, path, r, more);
  }

  lemma RawFront(r: Raw, more: string)
    requires RawOk(r)
    ensures var s := RawText(r, more);
      && s != [] && (StartsNoCase(s, NOT) <==> r.negation != "")
      && (r.negation == "" ==> s == Bracketed(r, more))
      && (r.negation != "" ==> |s| >= 3 && SkipSpace(s[3..]) == Bracketed(r, more))
  {
    hide SkipSpace, AllSpace;
    var b := Bracketed(r, more);
    assert b[0] == r.open;
    if r.negation == "" {
      assert "" + ("" + b) == b;
      assert ToLower(b[0]) != ToLower(NOT[0]);
    } else {
      RestOfFront(r.negation, r.pad + b);
      StartsInFront(r.negation, r.pad + b, NOT);
      SkipAllSpace(r.pad, b);
    }
  }

  lemma BracketedIsRead(sv: Server, path: Option<string>, r: Raw, more: string)
    requires RawOk(r) && Solid(more)
    ensures var v := if RawHolds(sv, path, r) then Holds else Fails;
      EvalTest(sv, path, Bracketed(r, more), r.negation != "") == (v, RawId(sv, path, r), more)
  {
    hide Find, SkipSpace, TokenId, ETagHolds, StartsNoCase, AllSpace;
    var close, front := Closing(r.open), [r.open] + r.inside;
    var t := Bracketed(r, more);
    assert close !in front;
    FindFirst(front, close, r.after + more);
    assert t[1..|front|] == r.inside && t[|front| + 1..] == r.after + more;
    SkipAllSpace(r.after, more);
  }

  lemma {:induction false} SpaceSkipped(s: string) returns (pad: string)
    ensures AllSpace(pad) && s == pad + SkipSpace(s)
  {
    if s != [] && IsSpace(s[0]) {
      var p := SpaceSkipped(s[1..]);
      pad := [s[0]] + p;
      assert s == [s[0]] + s[1..];
    } else {
      pad := "";
    }
  }

  /** What is read as a test is one. */
  lemma RawFound(sv: Server, path: Option<string>, s: string) returns (r: Raw, more: string)
    requires s != [] && EvalCondition(sv, path, s).0 != Malformed
    ensures BeginsWithRaw(s, r, more)
  {
    hide EvalTest, SkipSpace;
    if StartsNoCase(s, NOT) {
      var pad := SpaceSkipped(s[3..]);
      r, more := BracketedFound(sv, path, SkipSpace(s[3..]), true, s[..3], pad);
      assert s == s[..3] + s[3..];
    } else {
      r, more := BracketedFound(sv, path, s, false, "", "");
      assert "" + ("" + s) == s;
    }
  }

  lemma BracketedFound(sv: Server, path: Option<string>, t: string, negated: bool, negation: string, pad: string)
    returns (r: Raw, more: string)
    requires EvalTest(sv, path, t, negated).0 != Malformed && AllSpace(pad)
    requires if negated then |negation| == 3 && StartsNoCase(negation, "not") else negation == "" && pad == ""
    ensures t == Bracketed(r, more) && RawOk(r) && Solid(more) && r.negation == negation && r.pad == pad
  {
    hide TokenId, ETagHolds, StartsNoCase, SkipSpace, AllSpace;
    var close := Closing(t[0]);
    var e := Find(t, close);
    hide Find;
    FindIsBehind(t, close);
    var after := SpaceSkipped(t[e + 1..]);
    more := SkipSpace(t[e + 1..]);
    NoneInFront(t, e, close);
    r := Raw(negation, pad, t[0], t[1..e], after);
    CutInThree(t, e);
  }

  lemma CutInThree(t: string, e: nat)
    requires 0 < e < |t|
    ensures t == ([t[0]] + t[1..e]) + ([t[e]] + t[e + 1..])
  {
  }

  lemma NoneInFront(t: string, e: nat, c: char)
    requires 0 < e <= |t| && c !in t[..e]
    ensures c !in t[1..e]
  {
    assert forall x :: x in t[1..e] ==> x in t[..e];
  }

  /** A text is malformed for the reading of a test exactly if it does not begin with one. */
  lemma NoTestExactly(sv: Server, path: Option<string>, s: string)
    requires s != []
    ensures EvalCondition(sv, path, s).0 == Malformed <==> NoTest(s)
  {
    hide EvalCondition, BeginsWithRaw;
    if EvalCondition(sv, path, s).0 != Malformed {
      var r, more := RawFound(sv, path, s);
    }
    forall r, more | BeginsWithRaw(s, r, more) ensures EvalCondition(sv, path, s).0 != Malformed {
      RawIsRead(sv, path, s, r, more);
    }
  }

  // ---------- What is between the brackets ----------

  /** White space, perhaps a quote or a second bracket, and a token. */
  predicate TokenIn(text: string, pad: string, mark: string, token: string) {
    text == pad + (mark + token) && AllSpace(pad) && (mark == "" || mark == "\"" || mark == "<")
  }

  /** The id of a token is found exactly if it reads as an id of this server, which the file, if one is named, has. */
  lemma TokenIdExactly(sv: Server, path: Option<string>, text: string, id: int)
    requires id != 0
    ensures TokenId(sv, path, text) == id <==>
      && (exists pad, mark, token ::
            TokenIn(text, pad, mark, token) && GetLockIDFromOpaqueHeader(sv.guid, token) == id)
      && (path.Some? ==> Associated(sv.table, path.value, id))
  {
    hide GetLockIDFromOpaqueHeader, Associated, SkipSpace, AllSpace;
    var pad := SpaceSkipped(text);
    var t := SkipSpace(text);
    var mark := if TokenBody(text) == t then "" else t[..1];
    assert t == mark + TokenBody(text);
    assert TokenIn(text, pad, mark, TokenBody(text));
    forall pad, mark, token
      | TokenIn(text, pad, mark, token) && GetLockIDFromOpaqueHeader(sv.guid, token) == id
      ensures token == TokenBody(text)
    {
      TokenStarts(sv.guid, token);
      SkipAllSpace(pad, mark + token);
      assert mark != "" ==> (mark + token)[0] == mark[0] && (mark + token)[1..] == token;
      assert mark == "" ==> mark + token == token;
    }
  }

  lemma TokenStarts(guid: string, token: string)
    requires GetLockIDFromOpaqueHeader(guid, token) != 0
    ensures token != "" && !IsSpace(token[0]) && token[0] != '\"' && token[0] != '<'
  {
    hide Atoi64;
    assert ToLower(token[0]) == ToLower(TOKEN_PREFIX[0]) == 'o';
  }

  /** White space, the mark of a weak tag or none, and the tag. */
  predicate TagIn(text: string, pad: string, weak: bool, tag: string) {
    && text == pad + ((if weak then "W/" else "") + tag) && AllSpace(pad)
    && (!weak ==> Solid(tag) && !(|tag| >= 2 && tag[..2] == "W/"))
  }

  /** An entity tag holds exactly if behind white space and the mark of a weak tag it is the file's own. */
  lemma ETagExactly(sv: Server, path: Option<string>, text: string)
    ensures ETagHolds(sv, path, text) <==>
      exists pad, weak, tag :: TagIn(text, pad, weak, tag) && ETagFor(sv, path) == Some(tag)
  {
    hide SkipSpace, AllSpace, ETagFor;
    var pad := SpaceSkipped(text);
    var t := SkipSpace(text);
    var weak, tag := |t| >= 2 && t[0] == 'W' && t[1] == '/', SkipWeakTag(t);
    assert t == (if weak then "W/" else "") + tag;
    assert TagIn(text, pad, weak, tag);
    forall pad, weak, tag' | TagIn(text, pad, weak, tag') ensures tag' == tag {
      var u := (if weak then "W/" else "") + tag';
      SkipAllSpace(pad, u);
      assert weak ==> u[0] == 'W' && u[1] == '/' && u[2..] == tag';
      assert !weak ==> u == tag';
    }
  }

  // ---------- The tests of a list ----------

  /** The tests in front of `more`. */
  function RawsText(rs: seq<Raw>, more: string): string {
    if rs == [] then more else RawText(rs[0], RawsText(rs[1..], more))
  }

  /** They are tests that hold. */
  predicate RawsHold(sv: Server, path: Option<string>, rs: seq<Raw>) {
    forall i :: 0 <= i < |rs| ==> RawOk(rs[i]) && RawHolds(sv, path, rs[i])
  }

  function RawIds(sv: Server, path: Option<string>, rs: seq<Raw>): seq<int> {
    if rs == [] then [] else RawId(sv, path, rs[0]) + RawIds(sv, path, rs[1..])
  }

  /** s begins with tests that hold, and then comes `rest`. */
  ghost predicate HoldsUpTo(sv: Server, path: Option<string>, s: string, rs: seq<Raw>, rest: string) {
    s == RawsText(rs, rest) && RawsHold(sv, path, rs) && Solid(rest)
  }

  /** All of s is tests that hold; or the first that is not so does not hold, or is no test. */
  ghost predicate ListIs(sv: Server, path: Option<string>, s: string, v: Verdict) {
    exists rs, rest :: HoldsUpTo(sv, path, s, rs, rest) && ListStops(sv, path, rest, v)
  }

  ghost predicate ListStops(sv: Server, path: Option<string>, rest: string, v: Verdict) {
    match v
    case Holds => rest == ""
    case Fails => exists r, more :: BeginsWithRaw(rest, r, more) && !RawHolds(sv, path, r)
    case Malformed => rest != "" && NoTest(rest)
  }

  lemma RawSolid(r: Raw, more: string)
    requires RawOk(r)
    ensures Solid(RawText(r, more)) && RawText(r, more) != []
  {
    hide AllSpace;
    var s := RawText(r, more);
    if r.negation == "" {
      assert "" + ("" + Bracketed(r, more)) == Bracketed(r, more);
      assert s[0] == r.open;
    } else {
      assert s[0] == r.negation[0] && ToLower(s[0]) == ToLower("not"[0]);
    }
  }

  lemma {:induction false} TestsAreRead(sv: Server, path: Option<string>, rs: seq<Raw>, rest: string)
    requires RawsHold(sv, path, rs) && Solid(rest)
    ensures Solid(RawsText(rs, rest))
    ensures EvalList(sv, path, RawsText(rs, rest)) == After(RawIds(sv, path, rs), EvalList(sv, path, rest))
  {
    hide RawOk, RawHolds, EvalCondition, RawId, RawText, Solid;
    var b := EvalList(sv, path, rest);
    if rs == [] {
      assert [] + b.ids == b.ids;
    } else {
      TestsAreRead(sv, path, rs[1..], rest);
      var more := RawsText(rs[1..], rest);
      var s := RawText(rs[0], more);
      RawSolid(rs[0], more);
      assert BeginsWithRaw(s, rs[0], more);
      RawIsRead(sv, path, s, rs[0], more);
      AfterTwice(RawId(sv, path, rs[0]), RawIds(sv, path, rs[1..]), b);
    }
  }

  lemma StopsAtOnce(sv: Server, path: Option<string>, rest: string, v: Verdict)
    requires ListStops(sv, path, rest, v)
    ensures EvalList(sv, path, rest).verdict == v
    ensures v == Holds ==> EvalList(sv, path, rest).ids == []
  {
    hide EvalCondition, NoTest, BeginsWithRaw, RawHolds;
    match v
    case Holds =>
    case Fails =>
      var r, more :| BeginsWithRaw(rest, r, more) && !RawHolds(sv, path, r);
      RawIsRead(sv, path, rest, r, more);
    case Malformed =>
      NoTestExactly(sv, path, rest);
  }

  /** The tests up to the one that decides. */
  lemma {:induction false} TestsFound(sv: Server, path: Option<string>, s: string)
    returns (rs: seq<Raw>, rest: string)
    requires Solid(s)
    ensures HoldsUpTo(sv, path, s, rs, rest) && ListStops(sv, path, rest, EvalList(sv, path, s).verdict)
    ensures EvalList(sv, path, s).verdict == Holds ==> EvalList(sv, path, s).ids == RawIds(sv, path, rs)
    decreases |s|
  {
    hide EvalCondition, NoTest, BeginsWithRaw, RawHolds, Solid, RawId;
    rs, rest := [], s;
    if s != [] {
      NoTestExactly(sv, path, s);
      if EvalCondition(sv, path, s).0 != Malformed {
        var r, more := RawFound(sv, path, s);
        RawIsRead(sv, path, s, r, more);
        RawParts(s, r, more);
        if RawHolds(sv, path, r) {
          rs, rest := TestsFound(sv, path, more);
          OneMoreTest(sv, path, s, r, more, rs, rest);
          rs := [r] + rs;
        }
      }
    }
  }

  lemma RawParts(s: string, r: Raw, more: string)
    requires BeginsWithRaw(s, r, more)
    ensures Solid(more) && RawOk(r) && s == RawText(r, more)
  {
  }

  lemma OneMoreTest(sv: Server, path: Option<string>, s: string, r: Raw, more: string, rs: seq<Raw>, rest: string)
    requires HoldsUpTo(sv, path, more, rs, rest) && s == RawText(r, more) && RawOk(r) && RawHolds(sv, path, r)
    ensures HoldsUpTo(sv, path, s, [r] + rs, rest)
    ensures RawIds(sv, path, [r] + rs) == RawId(sv, path, r) + RawIds(sv, path, rs)
  {
    hide RawText, RawOk, RawHolds, RawId;
    assert ([r] + rs)[1..] == rs;
  }

  /** The verdict on a list, for every text that has no white space in front. */
  lemma ListExactly(sv: Server, path: Option<string>, s: string, v: Verdict)
    requires Solid(s)
    ensures EvalList(sv, path, s).verdict == v <==> ListIs(sv, path, s, v)
  {
    hide EvalList, ListStops, Solid, RawsHold, RawIds;
    var rs', rest' := TestsFound(sv, path, s);
    if ListIs(sv, path, s, v) {
      var rs, rest :| HoldsUpTo(sv, path, s, rs, rest) && ListStops(sv, path, rest, v);
      TestsAreRead(sv, path, rs, rest);
      StopsAtOnce(sv, path, rest, v);
    }
  }

  // ---------- What is skipped of a URL ----------

  predicate BeginsWith(s: string, c: char) {
    s != "" && s[0] == c
  }

  /**
    What is skipped of a URL, in front of `rest`: nothing in front of a path; otherwise a scheme, its one or
    two slashes and a host up to the next slash, or just the scheme and the slashes if no other slash follows.
  */
  ghost predicate Skipped(k: string, rest: string) {
    || (k == "" && BeginsWith(rest, '/'))
    || (exists scheme, slashes, host :: SkippedParts(k, rest, scheme, slashes, host))
  }

  predicate SkippedParts(k: string, rest: string, scheme: string, slashes: string, host: string) {
    && k == scheme + (slashes + host) && scheme != "" && '/' !in scheme && '/' !in host
    && (slashes == "//" || (slashes == "/" && !BeginsWith(host + rest, '/')))
    && (BeginsWith(rest, '/') || (host == "" && '/' !in rest))
  }

  /** Scheme and host are skipped so from every URL that has a slash, and from no other. */
  lemma SkippedExactly(url: string, k: string, rest: string)
    ensures Skipped(k, rest) ==> SkipHttpPrefixAndHostName(k + rest) == Some(rest)
    ensures SkipHttpPrefixAndHostName(url) == None <==> '/' !in url
  {
    hide SkipHttpPrefixAndHostName;
    if Skipped(k, rest) {
      if k == "" && BeginsWith(rest, '/') {
        NothingSkipped(rest);
        assert "" + rest == rest;
      } else {
        var scheme, slashes, host :| SkippedParts(k, rest, scheme, slashes, host);
        PartsSkipped(k, rest, scheme, slashes, host);
      }
    }
    NoSlash(url);
  }

  lemma NothingSkipped(rest: string)
    requires BeginsWith(rest, '/')
    ensures SkipHttpPrefixAndHostName(rest) == Some(rest)
  {
  }

  lemma NoSlash(url: string)
    ensures SkipHttpPrefixAndHostName(url) == None <==> '/' !in url
  {
    hide Find;
    var i := Find(url, '/');
    if i < |url| {
      assert url[i] in url;
    } else {
      assert url[..i] == url;
    }
  }

  lemma PartsSkipped(k: string, rest: string, scheme: string, slashes: string, host: string)
    requires SkippedParts(k, rest, scheme, slashes, host)
    ensures SkipHttpPrefixAndHostName(k + rest) == Some(rest)
  {
    hide Find;
    var url, behind := k + rest, host + rest;
    RegroupTwice(scheme, slashes, host, rest);
    SchemeEnds(scheme, slashes, behind);
    HostEnds(host, rest);
    hide BeginsWith;
    assert url[|scheme| + |slashes|..] == behind;
  }

  lemma RegroupTwice(a: string, b: string, c: string, d: string)
    ensures (a + (b + c)) + d == a + (b + (c + d))
  {
  }

  lemma SchemeEnds(scheme: string, slashes: string, behind: string)
    requires scheme != "" && '/' !in scheme
    requires slashes == "//" || (slashes == "/" && !BeginsWith(behind, '/'))
    ensures var url, i := scheme + (slashes + behind), |scheme|;
      && url[0] != '/' && Find(url, '/') == i < |url|
      && (slashes == "//" <==> i + 1 < |url| && url[i + 1] == '/')
      && url[i + |slashes|..] == behind
  {
    var url := scheme + (slashes + behind);
    assert slashes + behind == ['/'] + (slashes[1..] + behind);
    FindFirst(scheme, '/', slashes[1..] + behind);
    hide Find;
    assert url[0] == scheme[0] && scheme[0] in scheme;
    RestOfFront(scheme + slashes, behind);
    assert url == (scheme + slashes) + behind;
  }

  lemma {:induction false} FindNone(s: string, c: char)
    requires c !in s
    ensures Find(s, c) == |s|
  {
    if s != [] {
      FindNone(s[1..], c);
    }
  }

  lemma HostEnds(host: string, rest: string)
    requires '/' !in host && (BeginsWith(rest, '/') || (host == "" && '/' !in rest))
    ensures var behind := host + rest;
      behind[if Find(behind, '/') < |behind| then Find(behind, '/') else 0..] == rest
  {
    hide Find;
    var behind := host + rest;
    if BeginsWith(rest, '/') {
      assert rest == ['/'] + rest[1..];
      FindFirst(host, '/', rest[1..]);
    } else {
      assert behind == rest;
      FindNone(rest, '/');
    }
  }

  lemma SkippedFound(url: string) returns (k: string, rest: string)
    requires '/' in url
    ensures url == k + rest && Skipped(k, rest) && SkipHttpPrefixAndHostName(url) == Some(rest)
  {
    hide SkippedParts, SkipHttpPrefixAndHostName;
    if url[0] == '/' {
      k, rest := "", url;
      assert "" + url == url;
    } else {
      var scheme, slashes, host;
      scheme, slashes, host, rest := PartsFound(url);
      k := scheme + (slashes + host);
    }
    SkippedExactly(url, k, rest);
  }

  lemma PartsFound(url: string) returns (scheme: string, slashes: string, host: string, rest: string)
    requires '/' in url && url[0] != '/'
    ensures url == (scheme + (slashes + host)) + rest
    ensures SkippedParts(scheme + (slashes + host), rest, scheme, slashes, host)
  {
    var i := Find(url, '/');
    hide Find;
    assert url[..|url|] == url;
    var n := if i + 1 < |url| && url[i + 1] == '/' then 2 else 1;
    scheme, slashes := url[..i], url[i..i + n];
    assert slashes == if n == 2 then "//" else "/";
    host, rest := HostFound(url[i + n..]);
    assert url == (scheme + slashes) + url[i + n..];
    assert n == 1 ==> !BeginsWith(host + rest, '/');
  }

  lemma HostFound(behind: string) returns (host: string, rest: string)
    ensures behind == host + rest && '/' !in host && (BeginsWith(rest, '/') || (host == "" && '/' !in rest))
  {
    var j := Find(behind, '/');
    if j < |behind| {
      host, rest := behind[..j], behind[j..];
    } else {
      host, rest := "", behind;
      assert behind[..j] == behind;
    }
  }

  // ---------- A list in the text ----------

  /** A list's tag: `url` is what names the file, behind what is skipped of it. */
  datatype RawTag = Untagged | Tagged(skipped: string, url: string)

  /** A list as it stands in the text; `content` is what its parentheses hold. */
  datatype RawList = RawList(before: string, tag: RawTag, gap: string, inner: string, content: string, after: string)

  function TagText(tag: RawTag, more: string): string {
    if tag.Untagged? then more else ['<'] + (tag.skipped + (tag.url + (['>'] + more)))
  }

  function Parenthesized(l: RawList, more: string): string {
    ['('] + (l.inner + (l.content + ([')'] + (l.after + more))))
  }

  /** The list in front of `more`. */
  function RawListText(l: RawList, more: string): string {
    l.before + TagText(l.tag, l.gap + Parenthesized(l, more))
  }

  ghost predicate RawTagOk(tag: RawTag, more: string) {
    tag.Tagged? ==> '>' !in tag.url && Skipped(tag.skipped, tag.url + (['>'] + more))
  }

  ghost predicate RawListOk(l: RawList, more: string) {
    && AllSpace(l.before) && AllSpace(l.gap) && AllSpace(l.inner) && AllSpace(l.after)
    && Solid(l.content) && ')' !in l.content && RawTagOk(l.tag, l.gap + Parenthesized(l, more))
  }

  ghost predicate BeginsWithList(s: string, l: RawList, more: string) {
    s == RawListText(l, more) && RawListOk(l, more) && Solid(more)
  }

  ghost predicate NoList(s: string) {
    forall l, more :: !BeginsWithList(s, l, more)
  }

  function RawPath(sv: Server, tag: RawTag): Option<string> {
    if tag.Untagged? then None else sv.toPath(tag.url)
  }

  /** The file, the content and the rest of the list that s begins with. */
  function ReadList(sv: Server, s: string): Option<(Option<string>, string, string)> {
    match TakeTag(sv, SkipSpace(s))
    case None => None
    case Some((path, rest)) =>
      var t := SkipSpace(rest);
      if t == [] || t[0] != '(' then None
      else
        var u := SkipSpace(t[1..]);
        var e := Find(u, ')');
        if e == |u| then None else Some((path, u[..e], SkipSpace(u[e + 1..])))
  }

  lemma TaggedListReads(sv: Server, s: string)
    ensures var r := ReadList(sv, s);
      EvalTaggedList(sv, s) ==
        if r.None? then (Answer(Malformed, []), "") else (EvalList(sv, r.value.0, r.value.1), r.value.2)
  {
    hide TakeTag, EvalList, SkipSpace, Find;
  }

  lemma TagIsRead(sv: Server, tag: RawTag, more: string)
    requires RawTagOk(tag, more) && (tag.Untagged? ==> more != [] && more[0] != '<')
    ensures TakeTag(sv, TagText(tag, more)) == Some((RawPath(sv, tag), more))
  {
    hide SkipHttpPrefixAndHostName, Skipped, Find;
    if tag.Tagged? {
      var u := tag.url + (['>'] + more);
      RestOfFront(['<'], tag.skipped + u);
      SkippedExactly(u, tag.skipped, u);
      FindFirst(tag.url, '>', more);
      assert u[..|tag.url|] == tag.url && u[|tag.url| + 1..] == more;
    }
  }

  /** The text between two parentheses, from behind the white space on. */
  lemma ContentIsRead(l: RawList, more: string)
    requires AllSpace(l.inner) && AllSpace(l.after) && Solid(l.content) && ')' !in l.content && Solid(more)
    ensures var u := SkipSpace(Parenthesized(l, more)[1..]);
      && Find(u, ')') == |l.content| < |u| && u[..|l.content|] == l.content
      && SkipSpace(u[|l.content| + 1..]) == more
  {
    hide Find, SkipSpace, AllSpace;
    var u := l.content + ([')'] + (l.after + more));
    RestOfFront(['('], l.inner + u);
    assert u[0] == if l.content == "" then ')' else l.content[0];
    SkipAllSpace(l.inner, u);
    FindFirst(l.content, ')', l.after + more);
    assert u[..|l.content|] == l.content && u[|l.content| + 1..] == l.after + more;
    SkipAllSpace(l.after, more);
  }

  lemma ListIsRead(sv: Server, s: string, l: RawList, more: string)
    requires BeginsWithList(s, l, more)
    ensures s != [] && ReadList(sv, s) == Some((RawPath(sv, l.tag), l.content, more))
  {
    hide Find, SkipSpace, AllSpace, TakeTag, TagText, Parenthesized;
    HeadIsRead(sv, l, more);
    ContentIsRead(l, more);
  }

  /** What stands in front of the content of a list. */
  lemma HeadIsRead(sv: Server, l: RawList, more: string)
    requires RawListOk(l, more)
    ensures var p := Parenthesized(l, more);
      && p != [] && p[0] == '(' && SkipSpace(l.gap + p) == p == SkipSpace(p)
      && RawListText(l, more) != []
      && TakeTag(sv, SkipSpace(RawListText(l, more)))
        == Some((RawPath(sv, l.tag), if l.tag.Untagged? then p else l.gap + p))
  {
    hide SkipSpace, AllSpace, TakeTag, Skipped;
    var p := Parenthesized(l, more);
    assert p[0] == '(';
    hide Parenthesized;
    SkipAllSpace(l.gap, p);
    SkipAllSpace("", p);
    assert "" + p == p;
    var t := TagText(l.tag, l.gap + p);
    SkipAllSpace(l.before, t);
    if l.tag.Untagged? {
      TagIsRead(sv, l.tag, p);
    } else {
      assert t[0] == '<';
      TagIsRead(sv, l.tag, l.gap + p);
    }
  }

  lemma SpaceFirst(s: string, t: string)
    requires SkipSpace(s) == t && t != []
    ensures s != []
  {
  }

  /** What is read as a list is one. */
  lemma ListFound(sv: Server, s: string) returns (l: RawList, more: string)
    requires ReadList(sv, s).Some?
    ensures BeginsWithList(s, l, more)
    ensures ReadList(sv, s) == Some((RawPath(sv, l.tag), l.content, more))
  {
    hide TakeTag, SkipSpace, AllSpace, RawTagOk;
    var before := SpaceSkipped(s);
    var s' := SkipSpace(s);
    var rest := TakeTag(sv, s').value.1;
    var gap := SpaceSkipped(rest);
    var t := SkipSpace(rest);
    var tag := TagFound(sv, s');
    var inner := SpaceSkipped(t[1..]);
    var u := SkipSpace(t[1..]);
    var e := Find(u, ')');
    var after := SpaceSkipped(u[e + 1..]);
    more := SkipSpace(u[e + 1..]);
    hide Find;
    l := RawList(before, tag, gap, inner, u[..e], after);
    assert Parenthesized(l, more) == t by {
      assert u == u[..e] + ([u[e]] + u[e + 1..]);
      assert t == [t[0]] + t[1..];
    }
    assert Solid(u[..e]) by {
      assert e > 0 ==> u[..e][0] == u[0];
    }
  }

  lemma TagFound(sv: Server, s: string) returns (tag: RawTag)
    requires TakeTag(sv, s).Some?
    ensures var (path, rest) := TakeTag(sv, s).value;
      s == TagText(tag, rest) && RawTagOk(tag, rest) && path == RawPath(sv, tag)
  {
    hide SkipHttpPrefixAndHostName, Skipped, Find;
    if s == [] || s[0] != '<' {
      return Untagged;
    }
    SkippedExactly(s[1..], "", "");
    var k, u := SkippedFound(s[1..]);
    var e := Find(u, '>');
    tag := Tagged(k, u[..e]);
    assert u == u[..e] + (['>'] + u[e + 1..]);
    assert s == ['<'] + s[1..];
  }

  lemma NoListExactly(sv: Server, s: string)
    ensures ReadList(sv, s) == None <==> NoList(s)
  {
    hide ReadList, BeginsWithList;
    if ReadList(sv, s).Some? {
      var l, more := ListFound(sv, s);
    }
    forall l, more | BeginsWithList(s, l, more) ensures ReadList(sv, s).Some? {
      ListIsRead(sv, s, l, more);
    }
  }

  // ---------- The header ----------

  /** A list that holds: its content is these tests. */
  datatype Passed = Passed(list: RawList, tests: seq<Raw>)

  /** The lists in front of `rest`. */
  function PassedText(ps: seq<Passed>, rest: string): string {
    if ps == [] then rest else RawListText(ps[0].list, PassedText(ps[1..], rest))
  }

  ghost predicate Passes(sv: Server, p: Passed, more: string) {
    && RawListOk(p.list, more) && Solid(more)
    && HoldsUpTo(sv, RawPath(sv, p.list.tag), p.list.content, p.tests, "")
  }

  /** They are lists that hold, in front of `rest`. */
  ghost predicate AllPass(sv: Server, ps: seq<Passed>, rest: string) {
    ps != [] ==> Passes(sv, ps[0], PassedText(ps[1..], rest)) && AllPass(sv, ps[1..], rest)
  }

  function PassedIds(sv: Server, ps: seq<Passed>): seq<int> {
    if ps == [] then [] else RawIds(sv, RawPath(sv, ps[0].list.tag), ps[0].tests) + PassedIds(sv, ps[1..])
  }

  /** The text begins with a list that is stopped with the verdict v. */
  ghost predicate ListDecides(sv: Server, rest: string, v: Verdict) {
    exists l, more :: BeginsWithList(rest, l, more) && ListIs(sv, RawPath(sv, l.tag), l.content, v)
  }

  ghost predicate HeaderStops(sv: Server, rest: string, v: Verdict) {
    match v
    case Holds => rest == ""
    case Fails => ListDecides(sv, rest, Fails)
    case Malformed => rest != "" && (NoList(rest) || ListDecides(sv, rest, Malformed))
  }

  /**
    The whole header is lists that hold; or the first list that is not so has a test that does not hold, or
    something that is no test, behind tests that hold, or it is no list.
  */
  ghost predicate HeaderIs(sv: Server, s: string, v: Verdict) {
    exists ps, rest :: s == PassedText(ps, rest) && AllPass(sv, ps, rest) && HeaderStops(sv, rest, v)
  }

  lemma PassIsRead(sv: Server, s: string, p: Passed, more: string)
    requires s == RawListText(p.list, more) && Passes(sv, p, more)
    ensures s != [] && EvalTaggedList(sv, s)
      == (Answer(Holds, RawIds(sv, RawPath(sv, p.list.tag), p.tests)), more)
  {
    hide ReadList, EvalTaggedList, EvalList, RawListOk, Solid, RawIds, RawsHold;
    var path := RawPath(sv, p.list.tag);
    assert BeginsWithList(s, p.list, more);
    ListIsRead(sv, s, p.list, more);
    TaggedListReads(sv, s);
    TestsAreRead(sv, path, p.tests, "");
    NoMore(sv, path, "");
    assert RawIds(sv, path, p.tests) + [] == RawIds(sv, path, p.tests);
  }

  lemma {:induction false} PassesAreRead(sv: Server, ps: seq<Passed>, rest: string)
    requires AllPass(sv, ps, rest)
    ensures EvalHeader(sv, PassedText(ps, rest)) == After(PassedIds(sv, ps), EvalHeader(sv, rest))
  {
    hide Passes, EvalTaggedList, RawIds, RawListText;
    var b := EvalHeader(sv, rest);
    if ps == [] {
      assert [] + b.ids == b.ids;
    } else {
      var more := PassedText(ps[1..], rest);
      var s := RawListText(ps[0].list, more);
      PassesAreRead(sv, ps[1..], rest);
      PassIsRead(sv, s, ps[0], more);
      AfterTwice(RawIds(sv, RawPath(sv, ps[0].list.tag), ps[0].tests), PassedIds(sv, ps[1..]), b);
    }
  }

  lemma DecidedByList(sv: Server, rest: string, v: Verdict)
    requires ListDecides(sv, rest, v) && v != Holds
    ensures EvalHeader(sv, rest).verdict == v
  {
    hide ListIs, BeginsWithList, ReadList, EvalTaggedList, EvalList;
    var l, more :| BeginsWithList(rest, l, more) && ListIs(sv, RawPath(sv, l.tag), l.content, v);
    ListIsRead(sv, rest, l, more);
    TaggedListReads(sv, rest);
    ListPart(rest, l, more);
    ListExactly(sv, RawPath(sv, l.tag), l.content, v);
  }

  lemma ListPart(rest: string, l: RawList, more: string)
    requires BeginsWithList(rest, l, more)
    ensures rest == RawListText(l, more) && RawListOk(l, more) && Solid(more) && Solid(l.content)
  {
  }

  lemma HeaderDecided(sv: Server, rest: string, v: Verdict)
    requires HeaderStops(sv, rest, v)
    ensures EvalHeader(sv, rest).verdict == v
    ensures v == Holds ==> EvalHeader(sv, rest).ids == []
  {
    hide ListDecides, NoList, ReadList, EvalTaggedList;
    if v != Holds {
      if ListDecides(sv, rest, v) {
        DecidedByList(sv, rest, v);
      } else {
        NoListExactly(sv, rest);
        TaggedListReads(sv, rest);
      }
    }
  }

  /** The lists up to the one that decides. */
  lemma {:induction false} HeaderFound(sv: Server, s: string) returns (ps: seq<Passed>, rest: string)
    ensures s == PassedText(ps, rest) && AllPass(sv, ps, rest)
    ensures HeaderStops(sv, rest, EvalHeader(sv, s).verdict)
    ensures EvalHeader(sv, s).verdict == Holds ==> EvalHeader(sv, s).ids == PassedIds(sv, ps)
    decreases |s|
  {
    hide ReadList, EvalTaggedList, EvalList, NoList, ListIs, BeginsWithList, RawListText, RawListOk, RawIds, Solid,
      HoldsUpTo;
    ps, rest := [], s;
    if s != [] {
      TaggedListReads(sv, s);
      NoListExactly(sv, s);
      if ReadList(sv, s).Some? {
        var l, more := ListFound(sv, s);
        var path := RawPath(sv, l.tag);
        ListPart(s, l, more);
        var v := EvalList(sv, path, l.content).verdict;
        if v == Holds {
          var tests, none := TestsFound(sv, path, l.content);
          ps, rest := HeaderFound(sv, more);
          ps := [Passed(l, tests)] + ps;
          assert ps[1..] == ps[1..];
        } else {
          ListExactly(sv, path, l.content, v);
        }
      }
    }
  }

  /**
    The answer to every header text.  It is yes if and only if the text is a sequence of lists, each an
    optional closed tag and, from '(' up to the first ')', closed tests that hold.  It is 400 if and only if
    the first list or test not of this form is reached with everything in front of it holding, and 412 if
    and only if a test that does not hold is.
  */
  lemma AnswerExactly(sv: Server, s: string, v: Verdict)
    ensures EvalHeader(sv, s).verdict == v <==> HeaderIs(sv, s, v)
  {
    hide EvalHeader, HeaderStops, AllPass;
    var ps', rest' := HeaderFound(sv, s);
    if HeaderIs(sv, s, v) {
      var ps, rest :| s == PassedText(ps, rest) && AllPass(sv, ps, rest) && HeaderStops(sv, rest, v);
      PassesAreRead(sv, ps, rest);
      HeaderDecided(sv, rest, v);
    }
  }

  /** With a yes come the ids of the tokens asked for, and of no others, whatever way the text is read. */
  lemma YesCollects(sv: Server, s: string, ps: seq<Passed>)
    requires s == PassedText(ps, "") && AllPass(sv, ps, "")
    ensures EvalHeader(sv, s) == Answer(Holds, PassedIds(sv, ps))
  {
    hide EvalHeader, AllPass;
    PassesAreRead(sv, ps, "");
    HeaderDecided(sv, "", Holds);
    assert PassedIds(sv, ps) + [] == PassedIds(sv, ps);
  }
}
