/**
  The If header as its grammar writes it (section 9.4 of RFC 2518), and what a header written so means.
  The server's reading of the text comes to just that meaning.
*/
module IfGrammar {
  import opened CStrings
  import opened Options
  import opened PathNames
  import opened LockTable
  import opened LockBusy
  import opened LockTokens
  import opened IfHeader

  // ---------- Grammar ----------

  /** The resource a list is about: the request's own, or one given by path or by full URL. */
  datatype Tag = NoTag | PathTag(path: string) | UrlTag(scheme: string, host: string, path: string)

  /** A token this server printed, another token, or an entity tag. */
  datatype Test = Own(id: int) | Foreign(text: string) | ETag(weak: bool, tag: string)

  /** The strings in conditions and lists that are no part of the meaning are white space. */
  datatype Condition = Condition(negated: bool, pad: string, test: Test, after: string)
  datatype List = List(before: string, tag: Tag, gap: string, inner: string, conditions: seq<Condition>, after: string)

  predicate Without(s: string, c: char) {
    c !in s
  }

  predicate PathOk(path: string) {
    path != [] && path[0] == '/' && Without(path, '>')
  }

  predicate TagOk(tag: Tag) {
    match tag
    case NoTag => true
    case PathTag(path) => PathOk(path)
    case UrlTag(scheme, host, path) => scheme != [] && Without(scheme, '/') && Without(host, '/') && PathOk(path)
  }

  /** A Foreign token is not one of ours; an entity tag is a quoted string. */
  predicate TestOk(guid: string, t: Test) {
    match t
    case Own(id) => IsInt64(id) && id != 0
    case Foreign(text) => Without(text, '>') && GetLockIDFromOpaqueHeader(guid, TokenBody(text)) == 0
    case ETag(_, tag) => tag != [] && tag[0] == '\"'
  }

  /**
    No bracket that the server would take for the end of the list or of the tag.  The grammar does not
    ask for this; see PlainExactly.
  */
  predicate Plain(t: Test) {
    match t
    case Own(_) => true
    case Foreign(text) => Without(text, ')')
    case ETag(_, tag) => Without(tag, ')') && Without(tag, ']')
  }

  predicate TestPlain(guid: string, t: Test) {
    TestOk(guid, t) && Plain(t)
  }

  predicate ConditionOk(guid: string, c: Condition) {
    AllSpace(c.pad) && AllSpace(c.after) && TestOk(guid, c.test)
  }

  predicate ConditionPlain(guid: string, c: Condition) {
    ConditionOk(guid, c) && Plain(c.test)
  }

  predicate LayoutOk(l: List) {
    AllSpace(l.before) && AllSpace(l.gap) && AllSpace(l.inner) && AllSpace(l.after) && TagOk(l.tag)
  }

  predicate ListOk(guid: string, l: List) {
    LayoutOk(l) && forall i :: 0 <= i < |l.conditions| ==> ConditionOk(guid, l.conditions[i])
  }

  predicate ListPlain(guid: string, l: List) {
    LayoutOk(l) && forall i :: 0 <= i < |l.conditions| ==> ConditionPlain(guid, l.conditions[i])
  }

  /** What stands before the path of a URL. */
  function HostPart(tag: Tag): string {
    if tag.UrlTag? then tag.scheme + (['/'] + (['/'] + tag.host)) else ""
  }

  function RenderTag(tag: Tag): string {
    if tag.NoTag? then "" else ['<'] + (HostPart(tag) + (tag.path + ['>']))
  }

  /** What is between the brackets. */
  function Inside(guid: string, t: Test): string {
    match t
    case Own(id) => WriteOpaqueLockToken(guid, id, false)
    case Foreign(text) => text
    case ETag(weak, tag) => (if weak then "W/" else "") + tag
  }

  function RenderTest(guid: string, t: Test): string {
    if t.ETag? then ['['] + Inside(guid, t) + [']'] else ['<'] + Inside(guid, t) + ['>']
  }

  function RenderCondition(guid: string, c: Condition): string {
    (if c.negated then NOT_WRITTEN + c.pad else "") + (RenderTest(guid, c.test) + c.after)
  }

  function RenderConditions(guid: string, cs: seq<Condition>): string {
    if cs == [] then "" else RenderCondition(guid, cs[0]) + RenderConditions(guid, cs[1..])
  }

  function RenderList(guid: string, l: List): string {
    l.before + (RenderTag(l.tag)
      + (l.gap + (['('] + (l.inner + (RenderConditions(guid, l.conditions) + [')'] + l.after)))))
  }

  function RenderHeader(guid: string, ls: seq<List>): string {
    if ls == [] then "" else RenderList(guid, ls[0]) + RenderHeader(guid, ls[1..])
  }

  // ---------- Meaning ----------

  /**
    When the server takes a test to hold.  It asks the lock table only about a list whose tag maps to a
    file: a token of its own in any other list holds, whether or not such a lock is held.  What the
    standard says to that is in module IfStandard.
  */
  predicate TestHolds(sv: Server, path: Option<string>, t: Test) {
    match t
    case Own(id) => path.None? || Associated(sv.table, path.value, id)
    case Foreign(_) => false
    case ETag(_, tag) => ETagFor(sv, path) == Some(tag)
  }

  predicate ConditionHolds(sv: Server, path: Option<string>, c: Condition) {
    TestHolds(sv, path, c.test) != c.negated
  }

  function PathOf(sv: Server, tag: Tag): Option<string> {
    if tag.NoTag? then None else sv.toPath(tag.path)
  }

  predicate ListHolds(sv: Server, l: List) {
    forall c :: c in l.conditions ==> ConditionHolds(sv, PathOf(sv, l.tag), c)
  }

  predicate HeaderHolds(sv: Server, ls: seq<List>) {
    forall l :: l in ls ==> ListHolds(sv, l)
  }

  /** The ids of the tokens that are not negated, in order. */
  function IdsOf(cs: seq<Condition>): seq<int> {
    if cs == [] then [] else (if cs[0].test.Own? && !cs[0].negated then [cs[0].test.id] else []) + IdsOf(cs[1..])
  }

  function HeaderIds(ls: seq<List>): seq<int> {
    if ls == [] then [] else IdsOf(ls[0].conditions) + HeaderIds(ls[1..])
  }

  // ---------- Reading what was written ----------

  /** Text that no white space stands in front of. */
  predicate Solid(s: string) {
    s != [] ==> !IsSpace(s[0])
  }

  lemma {:induction false} FindFirst(a: string, c: char, b: string)
    requires c !in a
    ensures Find(a + ([c] + b), c) == |a|
  {
    assert a + ([c] + b) == a + [c] + b;
    FindBehind(a, c, b);
  }

  lemma TokenText(guid: string, id: int)
    requires IsGuid(guid)
    ensures var s := WriteOpaqueLockToken(guid, id, false);
      Without(s, '>') && Without(s, ')') && TokenBody(s) == s
  {
    hide Decimal;
    var n := Int64Text(id);
    var s := TOKEN_PREFIX + guid + ":" + n;
    assert WriteOpaqueLockToken(guid, id, false) == s;
    assert forall c :: c in n ==> IsDigit(c) || c == '-' by {
      forall c | c in n ensures IsDigit(c) || c == '-' {
        var i :| 0 <= i < |n| && n[i] == c;
        assert id < 0 && i > 0 ==> n[i] == Decimal(-id)[i - 1];
      }
    }
    assert s[0] == 'o' && SkipSpace(s) == s;
    assert forall c :: c in TOKEN_PREFIX ==> c != '>' && c != ')';
  }

  lemma InsideOk(guid: string, t: Test)
    requires IsGuid(guid) && TestPlain(guid, t)
    ensures Without(Inside(guid, t), ')') && Without(Inside(guid, t), if t.ETag? then ']' else '>')
  {
    if t.Own? {
      TokenText(guid, t.id);
    }
  }

  /** The server prints a token with its brackets as the test that a client sends back. */
  lemma PrintedIsTest(guid: string, id: int)
    ensures WriteOpaqueLockToken(guid, id, true) == RenderTest(guid, Own(id))
  {
    hide Int64Text;
  }

  /** What the text of a test comes to. */
  lemma InsideMeans(sv: Server, path: Option<string>, t: Test)
    requires IsGuid(sv.guid) && TestPlain(sv.guid, t)
    ensures t.ETag? ==> (ETagHolds(sv, path, Inside(sv.guid, t)) <==> TestHolds(sv, path, t))
    ensures !t.ETag? ==> (TokenId(sv, path, Inside(sv.guid, t)) != 0 <==> TestHolds(sv, path, t))
    ensures t.Own? && TestHolds(sv, path, t) ==> TokenId(sv, path, Inside(sv.guid, t)) == t.id
  {
    hide GetLockIDFromOpaqueHeader, Associated;
    match t
    case Own(id) =>
      TokenText(sv.guid, id);
      TokenRoundTrip(sv.guid, id, WriteOpaqueLockToken(sv.guid, id, false));
    case Foreign(text) =>
    case ETag(weak, tag) =>
      var s := Inside(sv.guid, t);
      assert SkipSpace(s) == s;
      if weak {
        assert s[2..] == tag;
      } else {
        assert s == tag;
      }
  }

  lemma TestMeans(sv: Server, path: Option<string>, t: Test, negated: bool, after: string, more: string)
    requires IsGuid(sv.guid) && TestPlain(sv.guid, t) && AllSpace(after) && Solid(more)
    ensures var (v, ids, rest) := EvalTest(sv, path, RenderTest(sv.guid, t) + (after + more), negated);
      && v == Judge(TestHolds(sv, path, t), negated) && rest == more
      && (TestHolds(sv, path, t) ==> ids == if t.Own? then [t.id] else [])
      && (!TestHolds(sv, path, t) ==> ids == [])
  {
    hide Find, SkipSpace, TokenId, ETagHolds, TestHolds, TestPlain, AllSpace, Inside;
    var inside, open, close := Inside(sv.guid, t), if t.ETag? then '[' else '<', if t.ETag? then ']' else '>';
    var s := RenderTest(sv.guid, t) + (after + more);
    InsideOk(sv.guid, t);
    assert s == ([open] + inside) + ([close] + (after + more));
    assert close !in [open] + inside;
    FindFirst([open] + inside, close, after + more);
    assert s[1..|inside| + 1] == inside && s[|inside| + 2..] == after + more;
    SkipAllSpace(after, more);
    InsideMeans(sv, path, t);
    if t.Foreign? {
      assert !TestHolds(sv, path, t) by { NeverHolds(sv, path, t); }
    }
  }

  lemma NeverHolds(sv: Server, path: Option<string>, t: Test)
    requires t.Foreign?
    ensures !TestHolds(sv, path, t)
  {
  }

  lemma ConditionMeans(sv: Server, path: Option<string>, c: Condition, more: string)
    requires IsGuid(sv.guid) && ConditionPlain(sv.guid, c) && Solid(more)
    ensures RenderCondition(sv.guid, c) + more != []
    ensures var (v, ids, rest) := EvalCondition(sv, path, RenderCondition(sv.guid, c) + more);
      && v == (if ConditionHolds(sv, path, c) then Holds else Fails)
      && (v == Holds ==> rest == more && ids == IdsOf([c]))
  {
    hide SkipSpace, EvalTest, TestHolds, TestOk, Plain, AllSpace, RenderTest, StartsNoCase;
    var test := RenderTest(sv.guid, c.test) + (c.after + more);
    ConditionFront(sv.guid, c, more);
    TestMeans(sv, path, c.test, c.negated, c.after, more);
    assert [c][1..] == [];
  }

  /** A condition is read as negated just when it is. */
  lemma ConditionFront(guid: string, c: Condition, more: string)
    requires AllSpace(c.pad)
    ensures var s := RenderCondition(guid, c) + more;
      && (StartsNoCase(s, NOT) <==> c.negated)
      && (c.negated ==> |s| >= |NOT| && SkipSpace(s[|NOT|..]) == RenderTest(guid, c.test) + (c.after + more))
      && (!c.negated ==> s == RenderTest(guid, c.test) + (c.after + more))
      && s != []
  {
    hide SkipSpace, AllSpace, RenderTest;
    var text := RenderTest(guid, c.test);
    var test := text + (c.after + more);
    TestSolid(guid, c.test);
    assert test[0] == text[0];
    Regroup(text, c.after, more);
    if c.negated {
      Regroup(NOT_WRITTEN + c.pad, text + c.after, more);
      Regroup(NOT_WRITTEN, c.pad, test);
      assert (NOT_WRITTEN + (c.pad + test))[|NOT|..] == c.pad + test;
      StartsReflexive(c.pad + test);
      SkipAllSpace(c.pad, test);
    } else {
      assert "" + (text + c.after) == text + c.after;
      assert ToLower(test[0]) != ToLower(NOT[0]);
    }
  }

  lemma TestSolid(guid: string, t: Test)
    ensures var s := RenderTest(guid, t);
      s != [] && !IsSpace(s[0]) && ToLower(s[0]) != ToLower(NOT[0])
  {
  }

  const NOT_WRITTEN: string := "Not"

  lemma StartsReflexive(s: string)
    ensures StartsNoCase(NOT_WRITTEN + s, NOT)
  {
  }

  lemma RenderConditionSolid(guid: string, c: Condition)
    ensures RenderCondition(guid, c) != [] && !IsSpace(RenderCondition(guid, c)[0])
  {
  }

  lemma {:induction false} ConditionsSolid(guid: string, cs: seq<Condition>)
    ensures Solid(RenderConditions(guid, cs))
    ensures cs != [] ==> RenderConditions(guid, cs) != []
  {
    if cs != [] {
      RenderConditionSolid(guid, cs[0]);
    }
  }

  lemma SolidThen(a: string, b: string)
    requires Solid(a) && Solid(b)
    ensures Solid(a + b)
  {
  }

  lemma AfterTwice(got: seq<int>, more: seq<int>, a: Answer)
    ensures After(got, After(more, a)) == After(got + more, a)
  {
    assert got + (more + a.ids) == got + more + a.ids;
  }

  /** Conditions, and then some text. */
  lemma {:induction false} ConditionsThen(sv: Server, path: Option<string>, cs: seq<Condition>, tail: string)
    requires IsGuid(sv.guid) && (forall i :: 0 <= i < |cs| ==> ConditionPlain(sv.guid, cs[i])) && Solid(tail)
    ensures var a, b := EvalList(sv, path, RenderConditions(sv.guid, cs) + tail), EvalList(sv, path, tail);
      if forall c :: c in cs ==> ConditionHolds(sv, path, c) then a == After(IdsOf(cs), b) else a.verdict == Fails
  {
    hide EvalCondition, ConditionPlain, ConditionHolds, RenderCondition, RenderTest, Solid;
    if cs == [] {
      assert "" + tail == tail && [] + EvalList(sv, path, tail).ids == EvalList(sv, path, tail).ids;
    } else {
      var more := RenderConditions(sv.guid, cs[1..]) + tail;
      Regroup(RenderCondition(sv.guid, cs[0]), RenderConditions(sv.guid, cs[1..]), tail);
      ConditionsSolid(sv.guid, cs[1..]);
      SolidThen(RenderConditions(sv.guid, cs[1..]), tail);
      ConditionMeans(sv, path, cs[0], more);
      ConditionsThen(sv, path, cs[1..], tail);
      AfterTwice(IdsOf([cs[0]]), IdsOf(cs[1..]), EvalList(sv, path, tail));
      assert forall c :: c in cs <==> c == cs[0] || c in cs[1..];
      assert IdsOf(cs) == IdsOf([cs[0]]) + IdsOf(cs[1..]) by {
        assert [cs[0]][1..] == [];
      }
    }
  }

  lemma ConditionsMean(sv: Server, path: Option<string>, cs: seq<Condition>)
    requires IsGuid(sv.guid) && forall i :: 0 <= i < |cs| ==> ConditionPlain(sv.guid, cs[i])
    ensures var a := EvalList(sv, path, RenderConditions(sv.guid, cs));
      if forall c :: c in cs ==> ConditionHolds(sv, path, c) then a == Answer(Holds, IdsOf(cs)) else a.verdict == Fails
  {
    ConditionsThen(sv, path, cs, "");
    assert RenderConditions(sv.guid, cs) + "" == RenderConditions(sv.guid, cs);
    assert IdsOf(cs) + [] == IdsOf(cs);
  }

  /** No condition holds the parenthesis that ends the list. */
  lemma {:induction false} NoParenthesis(guid: string, cs: seq<Condition>)
    requires IsGuid(guid) && forall i :: 0 <= i < |cs| ==> ConditionPlain(guid, cs[i])
    ensures Without(RenderConditions(guid, cs), ')')
  {
    hide RenderCondition, ConditionPlain;
    if cs != [] {
      NoParenthesis(guid, cs[1..]);
      NoParenthesisInside(guid, cs[0]);
    }
  }

  lemma NoParenthesisInside(guid: string, c: Condition)
    requires IsGuid(guid) && ConditionPlain(guid, c)
    ensures Without(RenderCondition(guid, c), ')')
  {
    hide Inside, TestOk;
    InsideOk(guid, c.test);
    SpaceHasNone(c.pad);
    SpaceHasNone(c.after);
    assert Without(RenderTest(guid, c.test), ')');
  }

  lemma TagMeans(sv: Server, tag: Tag, more: string)
    requires TagOk(tag) && (tag.NoTag? ==> more != [] && more[0] != '<')
    ensures TakeTag(sv, RenderTag(tag) + more) == Some((PathOf(sv, tag), more))
  {
    hide Find, HostPart, SkipHttpPrefixAndHostName;
    if tag.NoTag? {
      assert RenderTag(tag) + more == more;
    } else {
      var url := HostPart(tag) + (tag.path + (['>'] + more));
      Regroup(['<'], HostPart(tag) + (tag.path + ['>']), more);
      Regroup(HostPart(tag), tag.path + ['>'], more);
      Regroup(tag.path, ['>'], more);
      assert (['<'] + url)[1..] == url;
      HostSkipped(tag, tag.path + (['>'] + more));
      PathEnds(tag.path, more);
    }
  }

  lemma HostSkipped(tag: Tag, tail: string)
    requires !tag.NoTag? && TagOk(tag) && tail != [] && tail[0] == '/'
    ensures SkipHttpPrefixAndHostName(HostPart(tag) + tail) == Some(tail)
  {
    hide Find;
    if tag.PathTag? {
      assert "" + tail == tail;
    } else {
      var (scheme, host) := (tag.scheme, tag.host);
      var url := scheme + (['/'] + (['/'] + (host + tail)));
      Regroup(scheme, ['/'] + (['/'] + host), tail);
      Regroup(['/'], ['/'] + host, tail);
      Regroup(['/'], host, tail);
      FindFirst(scheme, '/', ['/'] + (host + tail));
      assert scheme[0] in scheme;
      assert url[|scheme| + 2..] == host + tail;
      assert tail == ['/'] + tail[1..];
      FindFirst(host, '/', tail[1..]);
      assert (host + tail)[|host|..] == tail;
    }
  }

  lemma PathEnds(path: string, more: string)
    requires PathOk(path)
    ensures var u := path + (['>'] + more);
      Find(u, '>') == |path| && u[..|path|] == path && u[|path| + 1..] == more
  {
    FindFirst(path, '>', more);
  }

  /** The text of a list is its tag, then its parenthesis. */
  lemma ListFront(sv: Server, l: List, list: string)
    requires LayoutOk(l) && list != [] && list[0] == '('
    ensures var t := TakeTag(sv, SkipSpace(l.before + (RenderTag(l.tag) + (l.gap + list))));
      t.Some? && t.value.0 == PathOf(sv, l.tag) && SkipSpace(t.value.1) == list
  {
    hide SkipSpace, TakeTag;
    SkipAllSpace(l.gap, list);
    SkipAllSpace("", list);
    assert "" + list == list;
    if l.tag.NoTag? {
      assert l.before + (RenderTag(l.tag) + (l.gap + list)) == (l.before + l.gap) + list;
      SkipAllSpace(l.before + l.gap, list);
      assert RenderTag(l.tag) + list == list;
      TagMeans(sv, l.tag, list);
    } else {
      SkipAllSpace(l.before, RenderTag(l.tag) + (l.gap + list));
      TagMeans(sv, l.tag, l.gap + list);
    }
  }

  lemma ListParts(guid: string, l: List, more: string)
    ensures RenderList(guid, l) + more ==
      l.before + (RenderTag(l.tag)
        + (l.gap + (['('] + (l.inner + (RenderConditions(guid, l.conditions) + ([')'] + (l.after + more)))))))
  {
    hide RenderConditions, RenderTag;
    var cs := RenderConditions(guid, l.conditions);
    var e := [')'] + l.after;
    var d := cs + e;
    var c := l.inner + d;
    var b := ['('] + c;
    var a := l.gap + b;
    Regroup([')'], l.after, more);
    Regroup(cs, e, more);
    Regroup(l.inner, d, more);
    Regroup(['('], c, more);
    Regroup(l.gap, b, more);
    Regroup(RenderTag(l.tag), a, more);
    Regroup(l.before, RenderTag(l.tag) + a, more);
  }

  /** The server reads the conditions of a list up to the first parenthesis it sees. */
  lemma ListReads(sv: Server, l: List, more: string)
    requires LayoutOk(l)
    ensures var u := RenderConditions(sv.guid, l.conditions) + ([')'] + (l.after + more));
      var e := Find(u, ')');
      && e < |u|
      && EvalTaggedList(sv, RenderList(sv.guid, l) + more)
           == (EvalList(sv, PathOf(sv, l.tag), u[..e]), SkipSpace(u[e + 1..]))
  {
    hide SkipSpace, Find, TakeTag, EvalList, RenderConditions, RenderTag, AllSpace, TagOk;
    var cs := RenderConditions(sv.guid, l.conditions);
    var u := cs + ([')'] + (l.after + more));
    var list := ['('] + (l.inner + u);
    ListParts(sv.guid, l, more);
    ListFront(sv, l, list);
    assert list[1..] == l.inner + u;
    ConditionsSolid(sv.guid, l.conditions);
    assert u[0] == if cs == [] then ')' else cs[0];
    SkipAllSpace(l.inner, u);
    assert u[|cs|] == ')';
    FindFinds(u, ')', |cs|);
  }

  lemma {:induction false} FindFinds(s: string, c: char, i: nat)
    requires i < |s| && s[i] == c
    ensures Find(s, c) <= i
  {
    if s[0] != c {
      FindFinds(s[1..], c, i - 1);
    }
  }

  lemma ListMeans(sv: Server, l: List, more: string)
    requires IsGuid(sv.guid) && ListPlain(sv.guid, l)
    ensures var (a, rest) := EvalTaggedList(sv, RenderList(sv.guid, l) + more);
      if ListHolds(sv, l) then a == Answer(Holds, IdsOf(l.conditions)) && rest == SkipSpace(more)
      else a.verdict == Fails
  {
    hide SkipSpace, Find, EvalList, EvalTaggedList, RenderConditions, RenderList, TagOk, ConditionPlain;
    var cs, behind := RenderConditions(sv.guid, l.conditions), l.after + more;
    ListReads(sv, l, more);
    NoParenthesis(sv.guid, l.conditions);
    FindFirst(cs, ')', behind);
    var u := cs + ([')'] + behind);
    assert u[..|cs|] == cs && u[|cs| + 1..] == behind;
    assert SkipSpace(behind) == SkipSpace(more) by { SkipAllSpace(l.after, more); }
    ConditionsMean(sv, PathOf(sv, l.tag), l.conditions);
  }

  lemma SkipSpaceTwice(s: string)
    ensures SkipSpace(SkipSpace(s)) == SkipSpace(s)
  {
  }

  /** White space in front of the header does not matter. */
  lemma SpaceInFront(sv: Server, s: string)
    ensures EvalTaggedList(sv, SkipSpace(s)) == EvalTaggedList(sv, s)
  {
    hide SkipSpace;
    SkipSpaceTwice(s);
  }

  /** A list does not vanish with its white space. */
  lemma ListStays(guid: string, l: List, more: string)
    requires AllSpace(l.before)
    ensures SkipSpace(RenderList(guid, l) + more) != [] && RenderList(guid, l) + more != []
  {
    hide RenderConditions;
    var s := RenderList(guid, l) + more;
    var i := |l.before| + |RenderTag(l.tag)| + |l.gap|;
    assert s[i] == '(';
    SolidRemains(s, i);
  }

  lemma {:induction false} SolidRemains(s: string, i: nat)
    requires i < |s| && !IsSpace(s[i])
    ensures SkipSpace(s) != []
  {
    if IsSpace(s[0]) {
      SolidRemains(s[1..], i - 1);
    }
  }

  /** Lists, and then some text. */
  lemma {:induction false} HeaderThen(sv: Server, ls: seq<List>, tail: string, s: string)
    requires IsGuid(sv.guid) && forall i :: 0 <= i < |ls| ==> ListPlain(sv.guid, ls[i])
    requires tail == "" || SkipSpace(tail) != ""
    requires s == RenderHeader(sv.guid, ls) + tail || s == SkipSpace(RenderHeader(sv.guid, ls) + tail)
    ensures var a, b := EvalHeader(sv, s), EvalHeader(sv, tail);
      if HeaderHolds(sv, ls) then a == After(HeaderIds(ls), b) else a.verdict == Fails
    decreases |ls|
  {
    hide EvalTaggedList, ListPlain, ListHolds, RenderList, SkipSpace;
    if ls == [] {
      assert "" + tail == tail && [] + EvalHeader(sv, tail).ids == EvalHeader(sv, tail).ids;
      SkipNothing();
      SpaceInFront(sv, tail);
    } else {
      var text, more := RenderList(sv.guid, ls[0]), RenderHeader(sv.guid, ls[1..]) + tail;
      Regroup(text, RenderHeader(sv.guid, ls[1..]), tail);
      assert AllSpace(ls[0].before) by { ListBefore(sv.guid, ls[0]); }
      ListStays(sv.guid, ls[0], more);
      ListMeans(sv, ls[0], more);
      SpaceInFront(sv, text + more);
      HeaderThen(sv, ls[1..], tail, SkipSpace(more));
      AfterTwice(IdsOf(ls[0].conditions), HeaderIds(ls[1..]), EvalHeader(sv, tail));
      assert forall l :: l in ls <==> l == ls[0] || l in ls[1..];
    }
  }

  lemma SkipNothing()
    ensures SkipSpace("") == ""
  {
  }

  lemma ListBefore(guid: string, l: List)
    requires ListPlain(guid, l)
    ensures AllSpace(l.before)
  {
  }

  /**
    For every header the grammar writes whose tests are plain, the server's answer is yes just when
    every condition of every list, negated or not, holds; no otherwise, but never "malformed"; and on
    yes it has collected the ids of its own tokens that are not negated, in their order.
  */
  lemma HeaderMeans(sv: Server, ls: seq<List>)
    requires IsGuid(sv.guid) && forall i :: 0 <= i < |ls| ==> ListPlain(sv.guid, ls[i])
    ensures var a := EvalHeader(sv, RenderHeader(sv.guid, ls));
      && a.verdict == (if HeaderHolds(sv, ls) then Holds else Fails)
      && (HeaderHolds(sv, ls) ==> a.ids == HeaderIds(ls))
  {
    var s := RenderHeader(sv.guid, ls);
    assert s + "" == s && HeaderIds(ls) + [] == HeaderIds(ls);
    HeaderThen(sv, ls, "", s);
  }

  /** From grant to use: the token of a new lock, sent back for the file's URL, opens the file to its holder. */
  lemma GrantedTokenOpens(sv: Server, file: string, url: string, mode: Mode, now: int, seconds: nat, luck: Luck)
    requires IsGuid(sv.guid) && PathOk(url) && sv.toPath(url) == Some(file)
    requires Create(sv.table, file, mode, now, seconds, luck).1.Granted?
    requires 0 < sv.table.nextId && IsInt64(sv.table.nextId)
    ensures var (t, g) := Create(sv.table, file, mode, now, seconds, luck);
      var header := RenderHeader(sv.guid, [List("", PathTag(url), " ", "", [Condition(false, "", Own(g.id), "")], "")]);
      EvalHeader(sv.(table := t), header) == Answer(Holds, [g.id]) && CanPerform(t, file, [], [g.id])
  {
    hide RenderHeader, EvalHeader;
    var (t, g) := Create(sv.table, file, mode, now, seconds, luck);
    GrantedIsFound(sv.table, file, mode, now, seconds, luck);
    var c := Condition(false, "", Own(g.id), "");
    var l := List("", PathTag(url), " ", "", [c], "");
    HeaderMeans(sv.(table := t), [l]);
    assert [c][1..] == [] && [l][1..] == [] && IdsOf([c]) == [g.id] && HeaderIds([l]) == [g.id];
  }

  lemma GrantedIsFound(t: Table, file: string, mode: Mode, now: int, seconds: nat, luck: Luck)
    ensures var (u, g) := Create(t, file, mode, now, seconds, luck);
      g.Granted? ==> g.id == t.nextId && Associated(u, file, g.id) && CanPerform(u, file, [], [g.id])
  {
    var (u, g) := Create(t, file, mode, now, seconds, luck);
    if g.Granted? {
      var i := IndexOfFile(t.nodes, file);
      SamePathReflexive(file);
      if i < |t.nodes| {
        IndexAfterChange(t.nodes, i, u.nodes[i], file);
      }
      var n := u.nodes[IndexOfFile(u.nodes, file)];
      assert n.locks[0] in n.locks && g.id in [g.id];
      assert HoldsOneOf(n, [g.id]);
    }
  }

  // ---------- Tests that are not plain ----------

  /** A test whose text ends the list: a parenthesis, in a tag before the first closing bracket. */
  predicate EndsList(t: Test) {
    match t
    case Own(_) => false
    case Foreign(text) => ')' in text
    case ETag(_, tag) => Find(tag, ')') < Find(tag, ']')
  }

  /** A test whose text ends the entity tag. */
  predicate EndsTag(t: Test) {
    t.ETag? && Find(t.tag, ']') < Find(t.tag, ')')
  }

  lemma PlainOrNot(t: Test)
    ensures Plain(t) <==> !EndsList(t) && !EndsTag(t)
  {
    if t.ETag? {
      assert Without(t.tag, ')') <==> Find(t.tag, ')') == |t.tag|;
      assert Without(t.tag, ']') <==> Find(t.tag, ']') == |t.tag|;
      assert Find(t.tag, ')') == Find(t.tag, ']') ==> Find(t.tag, ')') == |t.tag|;
    }
  }

  function Open(t: Test): char { if t.ETag? then '[' else '<' }

  function Close(t: Test): char { if t.ETag? then ']' else '>' }

  function Negation(c: Condition): string { if c.negated then NOT_WRITTEN + c.pad else "" }

  /** The beginning of a test, from its bracket to `cut`. */
  function Start(guid: string, t: Test, cut: nat): string
    requires cut <= |Inside(guid, t)|
  {
    [Open(t)] + Inside(guid, t)[..cut]
  }

  /** A condition that stands between others in a list, cut in its test. */
  lemma {:induction false} ConditionsAround(guid: string, cs: seq<Condition>, c: Condition, more: seq<Condition>)
    ensures RenderConditions(guid, cs + [c] + more)
         == RenderConditions(guid, cs) + (RenderCondition(guid, c) + RenderConditions(guid, more))
  {
    hide RenderCondition;
    var all := cs + [c] + more;
    if cs == [] {
      assert all[1..] == more;
      assert "" + (RenderCondition(guid, c) + RenderConditions(guid, more))
        == RenderCondition(guid, c) + RenderConditions(guid, more);
    } else {
      assert all[1..] == cs[1..] + [c] + more;
      ConditionsAround(guid, cs[1..], c, more);
      Regroup(
        RenderCondition(guid, cs[0]),
        RenderConditions(guid, cs[1..]),
        RenderCondition(guid, c) + RenderConditions(guid, more));
    }
  }

  lemma CutCondition(guid: string, c: Condition, cut: nat, behind: string) returns (rest: string)
    requires cut <= |Inside(guid, c.test)|
    ensures rest == Inside(guid, c.test)[cut..] + ([Close(c.test)] + (c.after + behind))
    ensures RenderCondition(guid, c) + behind == Negation(c) + (Start(guid, c.test, cut) + rest)
  {
    var inside, open, close := Inside(guid, c.test), [Open(c.test)], [Close(c.test)];
    rest := inside[cut..] + (close + (c.after + behind));
    assert inside == inside[..cut] + inside[cut..];
    assert RenderTest(guid, c.test) == open + inside + close;
    assert RenderTest(guid, c.test) + (c.after + behind) == Start(guid, c.test, cut) + rest;
    Regroup(RenderTest(guid, c.test), c.after, behind);
    Regroup(Negation(c), RenderTest(guid, c.test) + c.after, behind);
  }

  /** What the server sees of the conditions of a list, from a cut in one of them on. */
  lemma CutList(guid: string, l: List, cs: seq<Condition>, c: Condition, more: seq<Condition>, cut: nat, behind: string)
    returns (rest: string)
    requires l.conditions == cs + [c] + more && cut <= |Inside(guid, c.test)|
    ensures Inside(guid, c.test)[cut..] + [Close(c.test)] <= rest
    ensures RenderConditions(guid, l.conditions) + ([')'] + behind)
         == RenderConditions(guid, cs) + (Negation(c) + (Start(guid, c.test, cut) + rest))
  {
    hide RenderConditions, RenderCondition;
    ConditionsAround(guid, cs, c, more);
    var after := RenderConditions(guid, more) + ([')'] + behind);
    rest := CutCondition(guid, c, cut, after);
    assert rest == (Inside(guid, c.test)[cut..] + [Close(c.test)]) + (c.after + after);
    Regroup(RenderCondition(guid, c), RenderConditions(guid, more), [')'] + behind);
    Regroup(RenderConditions(guid, cs), RenderCondition(guid, c) + RenderConditions(guid, more), [')'] + behind);
  }

  lemma {:induction false} FindFurther(a: string, b: string, c: char)
    requires c !in a
    ensures Find(a + b, c) == |a| + Find(b, c)
  {
    if a == [] {
      assert a + b == b;
    } else {
      assert (a + b)[1..] == a[1..] + b;
      FindFurther(a[1..], b, c);
    }
  }

  lemma NegationSolid(c: Condition, open: char, s: string)
    requires open == '<' || open == '['
    ensures Solid(Negation(c) + ([open] + s)) && Without(NOT_WRITTEN, ')')
  {
  }

  /** A negated test is judged as such. */
  lemma NegationRead(sv: Server, path: Option<string>, c: Condition, open: char, s: string)
    requires AllSpace(c.pad) && (open == '<' || open == '[')
    ensures EvalCondition(sv, path, Negation(c) + ([open] + s)) == EvalTest(sv, path, [open] + s, c.negated)
  {
    hide SkipSpace, EvalTest;
    var t := [open] + s;
    if c.negated {
      Regroup(NOT_WRITTEN, c.pad, t);
      StartsReflexive(c.pad + t);
      assert (NOT_WRITTEN + (c.pad + t))[|NOT|..] == c.pad + t;
      SkipAllSpace(c.pad, t);
    } else {
      assert "" + t == t && ToLower(t[0]) != ToLower(NOT[0]);
    }
  }

  /** The conditions in front are read as they are meant; then comes the text of a test. */
  lemma ListUpTo(sv: Server, path: Option<string>, cs: seq<Condition>, c: Condition, open: char, s: string)
    requires IsGuid(sv.guid) && (forall i :: 0 <= i < |cs| ==> ConditionPlain(sv.guid, cs[i]))
    requires AllSpace(c.pad) && (open == '<' || open == '[')
    ensures var v := EvalTest(sv, path, [open] + s, c.negated).0;
      v != Holds ==>
        EvalList(sv, path, RenderConditions(sv.guid, cs) + (Negation(c) + ([open] + s))).verdict
          == if forall d :: d in cs ==> ConditionHolds(sv, path, d) then v else Fails
  {
    hide EvalTest, EvalCondition, ConditionHolds, ConditionPlain, RenderConditions;
    NegationSolid(c, open, s);
    NegationRead(sv, path, c, open, s);
    ConditionsThen(sv, path, cs, Negation(c) + ([open] + s));
  }

  lemma SpaceHasNone(pad: string)
    requires AllSpace(pad)
    ensures Without(pad, ')') && Without(NOT_WRITTEN + pad, ')')
  {
  }

  /** A list with such a test in it: reached, its parenthesis is taken for the end of the list. */
  lemma ListEndsInTest(sv: Server, l: List, cs: seq<Condition>, c: Condition, more: seq<Condition>, behind: string)
    requires IsGuid(sv.guid) && LayoutOk(l) && l.conditions == cs + [c] + more
    requires (forall i :: 0 <= i < |cs| ==> ConditionPlain(sv.guid, cs[i]))
    requires ConditionOk(sv.guid, c) && EndsList(c.test)
    ensures EvalTaggedList(sv, RenderList(sv.guid, l) + behind).0.verdict
         == if forall d :: d in cs ==> ConditionHolds(sv, PathOf(sv, l.tag), d) then Malformed else Fails
  {
    hide Find, SkipSpace, EvalList, EvalTaggedList, RenderConditions,
      RenderList, ConditionHolds, ConditionPlain, LayoutOk, EndsList;
    var inside := Inside(sv.guid, c.test);
    var cut := CutBeforeParenthesis(sv.guid, c.test);
    ListReads(sv, l, behind);
    var rest := CutList(sv.guid, l, cs, c, more, cut, l.after + behind);
    assert rest[0] == inside[cut] == ')';
    var start, front := Start(sv.guid, c.test, cut), RenderConditions(sv.guid, cs);
    Regroup(Negation(c), start, rest);
    Regroup(front, Negation(c) + start, rest);
    var seen := front + (Negation(c) + start);
    NoParenthesis(sv.guid, cs);
    SpaceHasNone(c.pad);
    assert Without(seen, ')');
    assert rest == [')'] + rest[1..];
    FindFirst(seen, ')', rest[1..]);
    assert (seen + rest)[..|seen|] == seen;
    NoClosingBracket(sv, PathOf(sv, l.tag), c.test, inside[..cut], c.negated);
    ListUpTo(sv, PathOf(sv, l.tag), cs, c, Open(c.test), inside[..cut]);
  }

  lemma CutBeforeParenthesis(guid: string, t: Test) returns (cut: nat)
    requires TestOk(guid, t) && EndsList(t)
    ensures cut < |Inside(guid, t)| && Inside(guid, t)[cut] == ')'
    ensures Without(Inside(guid, t)[..cut], ')') && Without(Inside(guid, t)[..cut], Close(t))
  {
    if t.Foreign? {
      cut := Find(t.text, ')');
    } else {
      var k := Find(t.tag, ')');
      var weak := if t.weak then "W/" else "";
      cut := |weak| + k;
      assert Inside(guid, t)[..cut] == weak + t.tag[..k];
      assert t.tag[..k] == t.tag[..Find(t.tag, ']')][..k];
    }
  }

  lemma NoClosingBracket(sv: Server, path: Option<string>, t: Test, s: string, negated: bool)
    requires Without(s, Close(t))
    ensures EvalTest(sv, path, [Open(t)] + s, negated).0 == Malformed
  {
    var text := [Open(t)] + s;
    assert Close(t) !in text;
    assert Find(text, Close(t)) == |text|;
  }

  /** A list with an entity tag that holds a closing bracket: reached, the tag is read up to there. */
  lemma TagEndsInTag(sv: Server, l: List, cs: seq<Condition>, c: Condition, more: seq<Condition>, behind: string)
    requires IsGuid(sv.guid) && LayoutOk(l) && l.conditions == cs + [c] + more
    requires (forall i :: 0 <= i < |cs| ==> ConditionPlain(sv.guid, cs[i]))
    requires ConditionOk(sv.guid, c) && EndsTag(c.test)
    requires (ETagFor(sv, PathOf(sv, l.tag)) == Some(c.test.tag[..Find(c.test.tag, ']')])) == c.negated
    ensures EvalTaggedList(sv, RenderList(sv.guid, l) + behind).0.verdict == Fails
  {
    hide Find, SkipSpace, EvalList, EvalTaggedList, RenderConditions,
      RenderList, ConditionHolds, ConditionPlain, LayoutOk, EndsTag;
    var t := c.test;
    var inside := Inside(sv.guid, t);
    var cut := CutBeforeBracket(sv, PathOf(sv, l.tag), t);
    ListReads(sv, l, behind);
    var rest := CutList(sv.guid, l, cs, c, more, cut + 1, l.after + behind);
    var start, front := Start(sv.guid, t, cut + 1), RenderConditions(sv.guid, cs);
    NoParenthesis(sv.guid, cs);
    StartHasNone(sv.guid, front, c, cut);
    hide Without, Start, Negation, Inside;
    var e := SeenThen(front, Negation(c), start, rest);
    var s := inside[..cut] + ([']'] + rest[..e]);
    Regroup(['['], inside[..cut] + [']'], rest[..e]);
    Regroup(inside[..cut], [']'], rest[..e]);
    TagRead(sv, PathOf(sv, l.tag), inside[..cut], rest[..e], c.negated);
    ListUpTo(sv, PathOf(sv, l.tag), cs, c, '[', s);
  }

  /** The list ends in what is behind the parts seen. */
  lemma SeenThen(front: string, negation: string, start: string, rest: string) returns (e: nat)
    requires Without(front + (negation + start), ')')
    ensures e == Find(rest, ')') <= |rest|
    ensures var all := front + (negation + (start + rest));
      && (Find(all, ')') < |all| <==> e < |rest|)
      && Find(all, ')') <= |all| && all[..Find(all, ')')] == front + (negation + (start + rest[..e]))
  {
    hide Find;
    e := Find(rest, ')');
    var seen := front + (negation + start);
    Regroup(negation, start, rest);
    Regroup(front, negation + start, rest);
    FindFurther(seen, rest, ')');
    assert (seen + rest)[..|seen| + e] == seen + rest[..e];
    Regroup(front, negation + start, rest[..e]);
    Regroup(negation, start, rest[..e]);
  }

  /** A test that is cut behind the bracket in it, with its negation. */
  lemma StartHasNone(guid: string, front: string, c: Condition, cut: nat)
    requires c.test.ETag? && AllSpace(c.pad) && cut < |Inside(guid, c.test)| && Inside(guid, c.test)[cut] == ']'
    requires Without(Inside(guid, c.test)[..cut], ')') && Without(front, ')')
    ensures Start(guid, c.test, cut + 1) == ['['] + (Inside(guid, c.test)[..cut] + [']'])
    ensures Without(front + (Negation(c) + Start(guid, c.test, cut + 1)), ')')
  {
    hide AllSpace, Inside;
    SpaceHasNone(c.pad);
    var inside := Inside(guid, c.test);
    assert inside[..cut + 1] == inside[..cut] + [']'];
    assert Without(Negation(c) + Start(guid, c.test, cut + 1), ')');
  }

  lemma CutBeforeBracket(sv: Server, path: Option<string>, t: Test) returns (cut: nat)
    requires TestOk(sv.guid, t) && EndsTag(t)
    ensures var inside := Inside(sv.guid, t);
      && t.ETag? && cut < |inside| && inside[cut] == ']'
      && Without(inside[..cut], ')') && Without(inside[..cut], ']')
      && (ETagHolds(sv, path, inside[..cut]) <==> ETagFor(sv, path) == Some(t.tag[..Find(t.tag, ']')]))
  {
    var k := Find(t.tag, ']');
    var weak, inside := if t.weak then "W/" else "", Inside(sv.guid, t);
    cut := |weak| + k;
    assert inside[..cut] == weak + t.tag[..k];
    assert t.tag[..k] == t.tag[..Find(t.tag, ')')][..k];
    assert k > 0 && SkipSpace(inside[..cut]) == inside[..cut];
    if t.weak {
      assert inside[..cut][2..] == t.tag[..k];
    } else {
      assert inside[..cut] == t.tag[..k];
    }
  }

  lemma TagRead(sv: Server, path: Option<string>, tag: string, rest: string, negated: bool)
    requires Without(tag, ']')
    ensures EvalTest(sv, path, ['['] + (tag + ([']'] + rest)), negated).0 == Judge(ETagHolds(sv, path, tag), negated)
  {
    hide Find, SkipSpace, ETagHolds;
    var t := ['['] + (tag + ([']'] + rest));
    assert t == (['['] + tag) + ([']'] + rest);
    FindFirst(['['] + tag, ']', rest);
    assert t[1..|tag| + 1] == tag;
  }

  /** The same inside a header, behind lists that are read as they are meant. */
  lemma HeaderUpTo(sv: Server, front: seq<List>, l: List, back: seq<List>)
    requires IsGuid(sv.guid) && (forall i :: 0 <= i < |front| ==> ListPlain(sv.guid, front[i])) && LayoutOk(l)
    ensures var v := EvalTaggedList(sv, RenderList(sv.guid, l) + RenderHeader(sv.guid, back)).0.verdict;
      v != Holds ==>
        EvalHeader(sv, RenderHeader(sv.guid, front + [l] + back)).verdict == if HeaderHolds(sv, front) then v else Fails
  {
    hide EvalTaggedList, ListPlain, HeaderHolds, RenderList, SkipSpace;
    var tail := RenderList(sv.guid, l) + RenderHeader(sv.guid, back);
    ListStays(sv.guid, l, RenderHeader(sv.guid, back));
    HeaderAround(sv.guid, front, l, back);
    HeaderThen(sv, front, tail, RenderHeader(sv.guid, front) + tail);
  }

  lemma {:induction false} HeaderAround(guid: string, front: seq<List>, l: List, back: seq<List>)
    ensures RenderHeader(guid, front + [l] + back)
      == RenderHeader(guid, front) + (RenderList(guid, l) + RenderHeader(guid, back))
  {
    hide RenderList;
    var all := front + [l] + back;
    if front == [] {
      assert all[1..] == back;
      assert "" + (RenderList(guid, l) + RenderHeader(guid, back)) == RenderList(guid, l) + RenderHeader(guid, back);
    } else {
      assert all[1..] == front[1..] + [l] + back;
      HeaderAround(guid, front[1..], l, back);
      Regroup(
        RenderList(guid, front[0]),
        RenderHeader(guid, front[1..]),
        RenderList(guid, l) + RenderHeader(guid, back));
    }
  }

  /**
    A parenthesis in a foreign token or an entity tag, which the grammar allows: the whole header is
    answered with 400 if and only if all conditions in front of it hold.  Where one of them fails, the
    answer is 412, as it should be.
  */
  lemma ParenthesisInTest(sv: Server, front: seq<List>, l: List, back: seq<List>, cs: seq<Condition>, c: Condition,
      more: seq<Condition>)
    requires IsGuid(sv.guid) && (forall i :: 0 <= i < |front| ==> ListPlain(sv.guid, front[i])) && LayoutOk(l)
    requires l.conditions == cs + [c] + more && (forall i :: 0 <= i < |cs| ==> ConditionPlain(sv.guid, cs[i]))
    requires ConditionOk(sv.guid, c) && EndsList(c.test)
    ensures EvalHeader(sv, RenderHeader(sv.guid, front + [l] + back)).verdict
         == if HeaderHolds(sv, front) && (forall d :: d in cs ==> ConditionHolds(sv, PathOf(sv, l.tag), d))
            then Malformed else Fails
  {
    hide *;
    ListEndsInTest(sv, l, cs, c, more, RenderHeader(sv.guid, back));
    HeaderUpTo(sv, front, l, back);
  }

  /**
    A closing bracket in an entity tag: the tag is compared up to there only, and the answer is 412 if
    that comparison fails, though the tag itself may be the file's.
  */
  lemma BracketInEntityTag(sv: Server, front: seq<List>, l: List, back: seq<List>, cs: seq<Condition>, c: Condition,
      more: seq<Condition>)
    requires IsGuid(sv.guid) && (forall i :: 0 <= i < |front| ==> ListPlain(sv.guid, front[i])) && LayoutOk(l)
    requires l.conditions == cs + [c] + more && (forall i :: 0 <= i < |cs| ==> ConditionPlain(sv.guid, cs[i]))
    requires ConditionOk(sv.guid, c) && EndsTag(c.test)
    requires (ETagFor(sv, PathOf(sv, l.tag)) == Some(c.test.tag[..Find(c.test.tag, ']')])) == c.negated
    ensures EvalHeader(sv, RenderHeader(sv.guid, front + [l] + back)).verdict == Fails
  {
    hide *;
    TagEndsInTag(sv, l, cs, c, more, RenderHeader(sv.guid, back));
    HeaderUpTo(sv, front, l, back);
  }

  /** The server's answer is the one the header stands for. */
  predicate ReadAsMeant(sv: Server, ls: seq<List>) {
    EvalHeader(sv, RenderHeader(sv.guid, ls)).verdict == if HeaderHolds(sv, ls) then Holds else Fails
  }

  /** All tests of the header are among `tests`. */
  predicate MadeOf(ls: seq<List>, tests: set<Test>) {
    forall i, j :: 0 <= i < |ls| && 0 <= j < |ls[i].conditions| ==> ls[i].conditions[j].test in tests
  }

  /** A header of the single test t. */
  function Alone(t: Test): seq<List> {
    [List("", NoTag, "", "", [Condition(false, "", t, "")], "")]
  }

  /** A server whose file has the entity tag that t asks for. */
  function Matching(guid: string, t: Test): Server {
    Server(guid, Table([], 1), "", _ => None, _ => if t.ETag? then Some(t.tag) else None)
  }

  /** A test that is not plain is misread even alone. */
  lemma NotPlainIsMisread(guid: string, t: Test)
    requires IsGuid(guid) && TestOk(guid, t) && !Plain(t)
    ensures !ReadAsMeant(Matching(guid, t), Alone(t))
  {
    hide RenderHeader, EvalHeader;
    var sv, c := Matching(guid, t), Condition(false, "", t, "");
    var l := Alone(t)[0];
    PlainOrNot(t);
    assert [] + [l] + [] == Alone(t) && [] + [c] + [] == l.conditions;
    if EndsList(t) {
      ParenthesisInTest(sv, [], l, [], [], c, []);
    } else {
      var k := Find(t.tag, ']');
      assert k < |t.tag| && |t.tag[..k]| != |t.tag|;
      BracketInEntityTag(sv, [], l, [], [], c, []);
      assert ConditionHolds(sv, None, c);
      assert ListHolds(sv, l);
    }
  }

  /**
    Which tests a client may use: every header made of them is read as it is meant, by every server,
    if and only if no entity tag among them holds a parenthesis or a closing bracket, and no foreign
    token a parenthesis.
  */
  lemma PlainExactly(guid: string, tests: set<Test>)
    requires IsGuid(guid) && forall t :: t in tests ==> TestOk(guid, t)
    ensures (forall sv: Server, ls: seq<List> ::
              sv.guid == guid && (forall i :: 0 <= i < |ls| ==> ListOk(guid, ls[i])) && MadeOf(ls, tests) ==>
                ReadAsMeant(sv, ls))
        <==> (forall t :: t in tests ==> Plain(t))
  {
    hide RenderHeader, EvalHeader, HeaderHolds;
    if t :| t in tests && !Plain(t) {
      NotPlainIsMisread(guid, t);
      assert MadeOf(Alone(t), tests);
      assert ListOk(guid, Alone(t)[0]);
    } else {
      forall sv: Server, ls: seq<List> |
        sv.guid == guid && (forall i :: 0 <= i < |ls| ==> ListOk(guid, ls[i])) && MadeOf(ls, tests)
        ensures ReadAsMeant(sv, ls)
      {
        forall i | 0 <= i < |ls| ensures ListPlain(guid, ls[i]) {
          assert ListOk(guid, ls[i]);
          assert forall j :: 0 <= j < |ls[i].conditions| ==> ls[i].conditions[j].test in tests;
        }
        HeaderMeans(sv, ls);
      }
    }
  }

  /**
    A header that holds a test that is not plain may still be read as it is meant, by every server: if
    the test is never reached.
  */
  lemma UnreachedDoesNotMatter(sv: Server, text: string, c: Condition)
    requires IsGuid(sv.guid) && TestPlain(sv.guid, Foreign(text)) && ConditionOk(sv.guid, c) && EndsList(c.test)
    ensures ReadAsMeant(sv, [List("", NoTag, "", "", [Condition(false, "", Foreign(text), ""), c], "")])
  {
    hide RenderHeader, EvalHeader;
    var d := Condition(false, "", Foreign(text), "");
    var l := List("", NoTag, "", "", [d, c], "");
    assert [] + [l] + [] == [l] && [d] + [c] + [] == l.conditions;
    ParenthesisInTest(sv, [], l, [], [d], c, []);
    NeverHolds(sv, None, d.test);
    assert d in [d] && d in l.conditions && !ConditionHolds(sv, None, d);
    assert !ListHolds(sv, l) && l in [l];
  }
}
