/**
  What section 9.4.1 of RFC 2518 asks of an If header, against what the server asks.  The standard
  wants one of the lists of a resource to match, and a tag holds until the next tag; the server wants
  all lists to match, and a tag holds for one list.  To the standard a token matches if that lock is
  held on the resource; the server does not look for the lock when it knows no path for the list.
*/
module IfStandard {
  import opened Options
  import opened LockTable
  import opened LockTokens
  import opened IfHeader
  import opened IfGrammar

  // ---------- The standard's reading ----------

  /** The file a tag names; lists without a tag are about the request's own. */
  function ResourceOf(sv: Server, tag: Tag): Option<string> {
    if tag.NoTag? then Some(sv.own) else sv.toPath(tag.path)
  }

  /** The state that the test names is one of the resource's own; no resource, no state. */
  predicate Current(sv: Server, resource: Option<string>, t: Test) {
    resource.Some? &&
    match t
    case Own(id) => Associated(sv.table, resource.value, id)
    case Foreign(_) => false
    case ETag(_, tag) => sv.etagOf(resource.value) == Some(tag)
  }

  /** The standard's scope of a tag: the lists behind it, up to the next tag. */
  function TagInForce(ls: seq<List>, i: nat): (tag: Tag)
    requires i < |ls|
    ensures !ls[i].tag.NoTag? ==> tag == ls[i].tag
  {
    if ls[i].tag.NoTag? && i > 0 then TagInForce(ls, i - 1) else ls[i].tag
  }

  predicate AllCurrent(sv: Server, tag: Tag, cs: seq<Condition>) {
    forall c :: c in cs ==> Current(sv, ResourceOf(sv, tag), c.test) != c.negated
  }

  /** List i matches the state of its resource. */
  predicate Matches(sv: Server, ls: seq<List>, i: nat)
    requires i < |ls|
  {
    AllCurrent(sv, TagInForce(ls, i), ls[i].conditions)
  }

  /** One of the lists of the resource matches. */
  predicate SomeMatches(sv: Server, ls: seq<List>, tag: Tag) {
    exists j :: 0 <= j < |ls| && TagInForce(ls, j) == tag && Matches(sv, ls, j)
  }

  /** For each resource in the header that the method is applied to, one of its lists matches. */
  predicate StandardHolds(sv: Server, applied: set<Tag>, ls: seq<List>) {
    forall i :: 0 <= i < |ls| && (TagInForce(ls, i).NoTag? || TagInForce(ls, i) in applied) ==>
      SomeMatches(sv, ls, TagInForce(ls, i))
  }

  predicate ServerHolds(sv: Server, ls: seq<List>) {
    EvalHeader(sv, RenderHeader(sv.guid, ls)).verdict == Holds
  }

  // ---------- Where a single test is read alike ----------

  /**
    The server judges the test as the standard does: a token without a tag has to be held on the
    request's file, and behind a tag that maps to no file no token may stand, and no entity tag that is
    the one of the request's file.
  */
  predicate Fair(sv: Server, tag: Tag, t: Test) {
    match t
    case Own(id) => if tag.NoTag? then Associated(sv.table, sv.own, id) else sv.toPath(tag.path).Some?
    case Foreign(_) => true
    case ETag(_, text) => tag.NoTag? || sv.toPath(tag.path).Some? || sv.etagOf(sv.own) != Some(text)
  }

  /** That is exact; and where the two differ, it is the server that takes the test to hold. */
  lemma FairExactly(sv: Server, tag: Tag, t: Test)
    ensures Fair(sv, tag, t) <==> (TestHolds(sv, PathOf(sv, tag), t) <==> Current(sv, ResourceOf(sv, tag), t))
    ensures Current(sv, ResourceOf(sv, tag), t) ==> TestHolds(sv, PathOf(sv, tag), t)
  {
    hide Associated;
  }

  /** Every test of the header is fair; or every one that is not negated. */
  predicate AllFair(sv: Server, ls: seq<List>, negatedToo: bool) {
    forall i, j :: 0 <= i < |ls| && 0 <= j < |ls[i].conditions| && (negatedToo || !ls[i].conditions[j].negated) ==>
      Fair(sv, ls[i].tag, ls[i].conditions[j].test)
  }

  /** What the server makes of a list, against what the standard makes of it behind the same tag. */
  lemma ListFair(sv: Server, ls: seq<List>, i: nat, negatedToo: bool)
    requires i < |ls| && AllFair(sv, ls, negatedToo)
    ensures ListHolds(sv, ls[i]) ==> AllCurrent(sv, ls[i].tag, ls[i].conditions)
    ensures negatedToo && AllCurrent(sv, ls[i].tag, ls[i].conditions) ==> ListHolds(sv, ls[i])
  {
    hide Fair, TestHolds, Current, PathOf, ResourceOf;
    var l := ls[i];
    forall c | c in l.conditions
      ensures ConditionHolds(sv, PathOf(sv, l.tag), c) ==> Current(sv, ResourceOf(sv, l.tag), c.test) != c.negated
      ensures negatedToo && Current(sv, ResourceOf(sv, l.tag), c.test) != c.negated ==>
        ConditionHolds(sv, PathOf(sv, l.tag), c)
    {
      var j :| 0 <= j < |l.conditions| && l.conditions[j] == c;
      assert negatedToo || !ls[i].conditions[j].negated ==> Fair(sv, l.tag, c.test);
      FairExactly(sv, l.tag, c.test);
    }
  }

  // ---------- Whole headers ----------

  /** Every resource has one list, and the method is applied to it. */
  predicate OneListEach(ls: seq<List>, applied: set<Tag>) {
    && (forall i, j :: 0 <= i < j < |ls| ==> TagInForce(ls, i) != TagInForce(ls, j))
    && (forall i :: 0 <= i < |ls| ==> TagInForce(ls, i).NoTag? || TagInForce(ls, i) in applied)
  }

  predicate AllPlain(guid: string, ls: seq<List>) {
    forall i :: 0 <= i < |ls| ==> ListPlain(guid, ls[i])
  }

  /** The list that the tag in force at list i stands in front of. */
  lemma {:induction false} TagStart(ls: seq<List>, i: nat) returns (j: nat)
    requires i < |ls|
    ensures j <= i && ls[j].tag == TagInForce(ls, j) == TagInForce(ls, i)
  {
    if ls[i].tag.NoTag? && i > 0 {
      j := TagStart(ls, i - 1);
    } else {
      j := i;
    }
  }

  /**
    Where the tests that are not negated are fair, the server never says yes where the standard says
    no: the first list behind each tag is about the same resource to both.
  */
  lemma YesIsStandardYes(sv: Server, applied: set<Tag>, ls: seq<List>)
    requires IsGuid(sv.guid) && AllPlain(sv.guid, ls) && AllFair(sv, ls, false)
    ensures ServerHolds(sv, ls) ==> StandardHolds(sv, applied, ls)
  {
    hide EvalHeader, RenderHeader, ListHolds, ListPlain, AllCurrent, AllFair;
    HeaderMeans(sv, ls);
    if HeaderHolds(sv, ls) {
      forall i | 0 <= i < |ls| ensures SomeMatches(sv, ls, TagInForce(ls, i)) {
        var j := TagStart(ls, i);
        assert ls[j] in ls;
        ListFair(sv, ls, j, false);
        assert Matches(sv, ls, j);
      }
    }
  }

  /** Where every test is fair and every resource has one list, the server's answer is the standard's. */
  lemma OneListIsStandard(sv: Server, applied: set<Tag>, ls: seq<List>)
    requires IsGuid(sv.guid) && AllPlain(sv.guid, ls) && AllFair(sv, ls, true) && OneListEach(ls, applied)
    ensures ServerHolds(sv, ls) <==> StandardHolds(sv, applied, ls)
  {
    hide EvalHeader, RenderHeader, ListHolds, ListPlain, AllCurrent, AllFair;
    HeaderMeans(sv, ls);
    assert AllFair(sv, ls, false) by { FairEnough(sv, ls); }
    YesIsStandardYes(sv, applied, ls);
    if StandardHolds(sv, applied, ls) {
      forall l | l in ls ensures ListHolds(sv, l) {
        var i :| 0 <= i < |ls| && ls[i] == l;
        assert SomeMatches(sv, ls, TagInForce(ls, i));
        var j :| 0 <= j < |ls| && TagInForce(ls, j) == TagInForce(ls, i) && Matches(sv, ls, j);
        assert i == j;
        var k := TagStart(ls, i);
        assert k == i;
        ListFair(sv, ls, i, true);
      }
    }
  }

  lemma FairEnough(sv: Server, ls: seq<List>)
    requires AllFair(sv, ls, true)
    ensures AllFair(sv, ls, false)
  {
  }

  function One(tag: Tag, negated: bool, t: Test): List {
    List("", tag, "", "", [Condition(negated, "", t, "")], "")
  }

  lemma OneHolds(sv: Server, tag: Tag, negated: bool, t: Test)
    ensures ListHolds(sv, One(tag, negated, t)) <==> TestHolds(sv, PathOf(sv, tag), t) != negated
    ensures AllCurrent(sv, tag, One(tag, negated, t).conditions) <==> Current(sv, ResourceOf(sv, tag), t) != negated
  {
    hide TestHolds, Current, PathOf, ResourceOf;
    var c := Condition(negated, "", t, "");
    assert c in One(tag, negated, t).conditions;
  }

  /** A header of one test: the two answers, from what the two make of the test. */
  lemma OneTest(sv: Server, applied: set<Tag>, tag: Tag, negated: bool, t: Test)
    requires IsGuid(sv.guid) && TagOk(tag) && TestPlain(sv.guid, t) && (tag.NoTag? || tag in applied)
    ensures var ls := [One(tag, negated, t)];
      && (ServerHolds(sv, ls) <==> TestHolds(sv, PathOf(sv, tag), t) != negated)
      && (StandardHolds(sv, applied, ls) <==> Current(sv, ResourceOf(sv, tag), t) != negated)
      && AllPlain(sv.guid, ls) && OneListEach(ls, applied)
  {
    hide EvalHeader, RenderHeader, ListHolds, TestHolds, Current, PathOf, ResourceOf, TestOk, Plain;
    var l := One(tag, negated, t);
    var ls := [l];
    assert ListPlain(sv.guid, l);
    HeaderMeans(sv, ls);
    OneHolds(sv, tag, negated, t);
    assert HeaderHolds(sv, ls) <==> ListHolds(sv, l) by { assert l in ls; }
    assert TagInForce(ls, 0) == tag;
    if StandardHolds(sv, applied, ls) {
      assert SomeMatches(sv, ls, TagInForce(ls, 0));
      assert Matches(sv, ls, 0);
    }
    if AllCurrent(sv, tag, l.conditions) {
      assert Matches(sv, ls, 0);
    }
  }

  /**
    A test that is not fair, alone: the server says yes where the standard says no; and negated, no
    where the standard says yes.
  */
  lemma UnfairAlone(sv: Server, applied: set<Tag>, tag: Tag, t: Test)
    requires IsGuid(sv.guid) && TagOk(tag) && TestPlain(sv.guid, t)
    requires (tag.NoTag? || tag in applied) && !Fair(sv, tag, t)
    ensures ServerHolds(sv, [One(tag, false, t)]) && !StandardHolds(sv, applied, [One(tag, false, t)])
    ensures !ServerHolds(sv, [One(tag, true, t)]) && StandardHolds(sv, applied, [One(tag, true, t)])
  {
    hide *;
    FairExactly(sv, tag, t);
    OneTest(sv, applied, tag, false, t);
    OneTest(sv, applied, tag, true, t);
  }

  /**
    Nothing is locked: `(<token>)` is answered with yes, and `(Not <token>)` with no; the standard has
    it the other way round.
  */
  lemma UnheldToken(sv: Server, applied: set<Tag>, id: int)
    requires IsGuid(sv.guid) && sv.table.nodes == [] && IsInt64(id) && id != 0
    ensures ServerHolds(sv, [One(NoTag, false, Own(id))]) && !StandardHolds(sv, applied, [One(NoTag, false, Own(id))])
    ensures !ServerHolds(sv, [One(NoTag, true, Own(id))]) && StandardHolds(sv, applied, [One(NoTag, true, Own(id))])
  {
    hide EvalHeader, RenderHeader, StandardHolds, ServerHolds;
    assert !Fair(sv, NoTag, Own(id));
    UnfairAlone(sv, applied, NoTag, Own(id));
  }

  // ---------- The exact conditions ----------

  /** What a list asks: a test about the resource of a tag. */
  datatype Question = Question(tag: Tag, test: Test)

  /** A question that a client may ask of a resource that the method is applied to. */
  predicate Askable(guid: string, applied: set<Tag>, q: Question) {
    TagOk(q.tag) && TestPlain(guid, q.test) && (q.tag.NoTag? || q.tag in applied)
  }

  /** The tests of the header, or those that are not negated, are among the questions. */
  predicate Asks(ls: seq<List>, qs: set<Question>, negatedToo: bool) {
    forall i, j :: 0 <= i < |ls| && 0 <= j < |ls[i].conditions| && (negatedToo || !ls[i].conditions[j].negated) ==>
      Question(ls[i].tag, ls[i].conditions[j].test) in qs
  }

  lemma AskedAreFair(sv: Server, ls: seq<List>, qs: set<Question>, negatedToo: bool)
    requires Asks(ls, qs, negatedToo) && forall q :: q in qs ==> Fair(sv, q.tag, q.test)
    ensures AllFair(sv, ls, negatedToo)
  {
    hide Fair;
    forall i, j | 0 <= i < |ls| && 0 <= j < |ls[i].conditions| && (negatedToo || !ls[i].conditions[j].negated)
      ensures Fair(sv, ls[i].tag, ls[i].conditions[j].test)
    {
      assert Question(ls[i].tag, ls[i].conditions[j].test) in qs;
    }
  }

  /**
    When a yes of the server is one of the standard: for every header whose tests that are not negated
    are among some questions, if and only if these are fair.
  */
  lemma YesExactly(sv: Server, applied: set<Tag>, qs: set<Question>)
    requires IsGuid(sv.guid) && forall q :: q in qs ==> Askable(sv.guid, applied, q)
    ensures (forall ls: seq<List> :: AllPlain(sv.guid, ls) && Asks(ls, qs, false) ==>
              (ServerHolds(sv, ls) ==> StandardHolds(sv, applied, ls)))
        <==> (forall q :: q in qs ==> Fair(sv, q.tag, q.test))
  {
    hide ServerHolds, StandardHolds, Fair, AllFair;
    if q :| q in qs && !Fair(sv, q.tag, q.test) {
      var ls := [One(q.tag, false, q.test)];
      UnfairAlone(sv, applied, q.tag, q.test);
      OneTest(sv, applied, q.tag, false, q.test);
      assert Question(ls[0].tag, ls[0].conditions[0].test) == q;
      assert Asks(ls, qs, false);
    } else {
      forall ls: seq<List> | AllPlain(sv.guid, ls) && Asks(ls, qs, false)
        ensures ServerHolds(sv, ls) ==> StandardHolds(sv, applied, ls)
      {
        AskedAreFair(sv, ls, qs, false);
        YesIsStandardYes(sv, applied, ls);
      }
    }
  }

  /**
    When the two answers are the same: for every header of one list for each resource, whose tests are
    among some questions, if and only if these are fair.
  */
  lemma AnswersExactly(sv: Server, applied: set<Tag>, qs: set<Question>)
    requires IsGuid(sv.guid) && forall q :: q in qs ==> Askable(sv.guid, applied, q)
    ensures (forall ls: seq<List> :: AllPlain(sv.guid, ls) && OneListEach(ls, applied) && Asks(ls, qs, true) ==>
              (ServerHolds(sv, ls) <==> StandardHolds(sv, applied, ls)))
        <==> (forall q :: q in qs ==> Fair(sv, q.tag, q.test))
  {
    hide ServerHolds, StandardHolds, Fair, AllFair, OneListEach;
    if q :| q in qs && !Fair(sv, q.tag, q.test) {
      var ls := [One(q.tag, false, q.test)];
      UnfairAlone(sv, applied, q.tag, q.test);
      OneTest(sv, applied, q.tag, false, q.test);
      assert Question(ls[0].tag, ls[0].conditions[0].test) == q;
      assert Asks(ls, qs, true);
    } else {
      forall ls: seq<List> | AllPlain(sv.guid, ls) && OneListEach(ls, applied) && Asks(ls, qs, true)
        ensures ServerHolds(sv, ls) <==> StandardHolds(sv, applied, ls)
      {
        AskedAreFair(sv, ls, qs, true);
        OneListIsStandard(sv, applied, ls);
      }
    }
  }

  // ---------- More than one list ----------

  const X: Test := ETag(false, "\"x\"")
  const Y: Test := ETag(false, "\"y\"")

  /** The file's tag is "x": two lists, one of which matches, satisfy the standard and not the server. */
  lemma AllListsAreAsked(sv: Server, applied: set<Tag>)
    requires IsGuid(sv.guid) && sv.etagOf(sv.own) == Some("\"x\"")
    ensures var ls := [One(NoTag, false, X), One(NoTag, false, Y)];
      StandardHolds(sv, applied, ls) && EvalHeader(sv, RenderHeader(sv.guid, ls)).verdict == Fails
  {
    hide EvalHeader, RenderHeader, ListHolds, AllCurrent;
    var ls := [One(NoTag, false, X), One(NoTag, false, Y)];
    OneHolds(sv, NoTag, false, X);
    OneHolds(sv, NoTag, false, Y);
    HeaderMeans(sv, ls);
    assert ls[1] in ls;
    assert Matches(sv, ls, 0);
  }

  /**
    The tag of the file at /a is "x", that of the request's own file is not: the second list behind
    the tag matches as the standard reads it, but the server takes it for one about its own file.
  */
  lemma TagIsForOneList(sv: Server, applied: set<Tag>, file: string)
    requires IsGuid(sv.guid) && sv.toPath("/a") == Some(file)
    requires sv.etagOf(file) == Some("\"x\"") && sv.etagOf(sv.own) != Some("\"x\"")
    ensures var ls := [One(PathTag("/a"), false, X), One(NoTag, false, X)];
      && Matches(sv, ls, 0) && Matches(sv, ls, 1) && StandardHolds(sv, applied, ls)
      && EvalHeader(sv, RenderHeader(sv.guid, ls)).verdict == Fails
  {
    hide EvalHeader, RenderHeader, ListHolds, AllCurrent;
    var tag := PathTag("/a");
    var ls := [One(tag, false, X), One(NoTag, false, X)];
    OneHolds(sv, tag, false, X);
    OneHolds(sv, NoTag, false, X);
    HeaderMeans(sv, ls);
    assert ls[1] in ls;
    assert One(NoTag, false, X).conditions == One(tag, false, X).conditions;
    assert TagInForce(ls, 1) == TagInForce(ls, 0) == tag;
  }
}
