/** Lines and sizes: where things are in the script, and how much room it takes. */
module AspLayout {
  import opened CStrings
  import opened Options
  import opened AspPage
  import opened AspScript
  import opened AspMeaning

  // ---------- Line numbers ----------

  lemma {:induction false} EscapeHasNoLineFeed(lang: Lang, text: string)
    ensures LineFeeds(EscapeAll(lang, text)) == 0
  {
    hide LineFeeds, Escape;
    if text == [] {
      NoLineFeed("");
    } else {
      EscapeHasNoLineFeed(lang, text[1..]);
      LineFeedsAppend(Escape(lang, text[0]), EscapeAll(lang, text[1..]));
      EscapedLineFeed(lang, text[0]);
      NoLineFeed(Escape(lang, text[0]));
    }
  }

  lemma EscapedLineFeed(lang: Lang, c: char)
    ensures '\n' !in Escape(lang, c)
  {
  }

  lemma {:induction false} NoLineFeed(s: string)
    requires '\n' !in s
    ensures LineFeeds(s) == 0
  {
    if s != [] {
      NoLineFeed(s[1..]);
    }
  }

  lemma {:induction false} StatementsHaveNoLineFeed(lang: Lang, text: string)
    ensures LineFeeds(Statements(lang, text)) == 0
    decreases |text|
  {
    hide EscapeAll, StatementLength, LineFeeds;
    if text == [] {
      NoLineFeed("");
    } else {
      var n := StatementLength(lang, text, |HTML_BEGIN|);
      var esc, rest := EscapeAll(lang, text[..n]), Statements(lang, text[n..]);
      EscapeHasNoLineFeed(lang, text[..n]);
      StatementsHaveNoLineFeed(lang, text[n..]);
      NoLineFeed(HTML_BEGIN);
      NoLineFeed(HtmlEnd(lang));
      LineFeedsAppend(HTML_BEGIN, esc);
      LineFeedsAppend(HTML_BEGIN + esc, HtmlEnd(lang));
      LineFeedsAppend(Statement(lang, text[..n]), rest);
    }
  }

  lemma {:induction false} LineFeedsOfCrlfs(n: nat)
    ensures LineFeeds(Crlfs(n)) == n
  {
    if n > 0 {
      LineFeedsOfCrlfs(n - 1);
      LineFeedsAppend("\r\n", Crlfs(n - 1));
      TwoCharacters();
    }
  }

  lemma TwoCharacters()
    ensures LineFeeds("\r\n") == 1 && LineFeeds("<%") == 0 && LineFeeds("%>") == 0
  {
    assert "\r\n"[1..] == "\n" && "\n"[1..] == "";
    assert LineFeeds("\n") == 1;
    NoLineFeed("<%");
    NoLineFeed("%>");
  }

  lemma {:induction false} LineFeedsOfReturns(s: string)
    ensures LineFeeds(Returns(s)) == LineFeeds(s)
  {
    if s != [] {
      LineFeedsOfReturns(s[1..]);
      if IsReturn(s[0]) {
        assert Returns(s)[1..] == Returns(s[1..]);
      } else {
        assert "" + Returns(s[1..]) == Returns(s[1..]);
      }
    }
  }

  lemma LineFeedsOfEnding(lang: Lang, after: string)
    ensures LineFeeds(Ending(lang, after)) == LineFeeds(after)
  {
    LineFeedsOfReturns(after);
    if Returns(after) == "" {
      NoLineFeed([Separator(lang)]);
    }
  }

  lemma LineFeedsOfCode(lang: Lang, code: string)
    ensures LineFeeds(CodeScript(lang, code)) == LineFeeds(code)
  {
    hide LineFeeds;
    if code != [] && code[0] == '@' {
      LineFeedsOfReturns(code);
    } else if code != [] && code[0] == '=' {
      NoLineFeed(EXP_BEGIN);
      NoLineFeed(ExpEnd(lang));
      LineFeedsAppend(EXP_BEGIN, code[1..]);
      LineFeedsAppend(EXP_BEGIN + code[1..], ExpEnd(lang));
      NoLineFeed("=");
      LineFeedsAppend("=", code[1..]);
      assert code == "=" + code[1..];
    }
  }

  lemma LineFeedsOfSegment(lang: Lang, seg: Segment)
    ensures LineFeeds(SegmentScript(lang, seg)) == LineFeeds(Source(seg))
  {
    hide LineFeeds, Returns, LeadingSpace, Statements, CodeScript, Ending;
    match seg
    case Plain(text) =>
      StatementsHaveNoLineFeed(lang, text);
      LineFeedsOfCrlfs(LineFeeds(text));
      LineFeedsAppend(Statements(lang, text), Crlfs(LineFeeds(text)));
    case Block(inner, after) =>
      var n := LeadingSpace(inner);
      LineFeedsOfReturns(inner[..n]);
      LineFeedsOfCode(lang, inner[n..]);
      LineFeedsOfEnding(lang, after);
      LineFeedsAppend(inner[..n], inner[n..]);
      assert inner[..n] + inner[n..] == inner;
      LineFeedsAppend(Returns(inner[..n]), CodeScript(lang, inner[n..]));
      LineFeedsAppend(BlockScript(lang, inner), Ending(lang, after));
      TwoCharacters();
      LineFeedsAppend("<%", inner);
      LineFeedsAppend("<%" + inner, "%>");
      LineFeedsAppend("<%" + inner + "%>", after);
  }

  lemma {:induction false} LineFeedsOfSegments(lang: Lang, segs: seq<Segment>)
    ensures LineFeeds(SegmentScripts(lang, segs)) == LineFeeds(Sources(segs))
  {
    hide LineFeeds, SegmentScript, Source;
    if segs != [] {
      LineFeedsOfSegment(lang, segs[0]);
      LineFeedsOfSegments(lang, segs[1..]);
      LineFeedsAppend(SegmentScript(lang, segs[0]), SegmentScripts(lang, segs[1..]));
      LineFeedsAppend(Source(segs[0]), Sources(segs[1..]));
    }
  }

  lemma {:induction false} SegmentsAppend(lang: Lang, a: seq<Segment>, b: seq<Segment>)
    ensures SegmentScripts(lang, a + b) == SegmentScripts(lang, a) + SegmentScripts(lang, b)
    ensures Sources(a + b) == Sources(a) + Sources(b)
  {
    hide SegmentScript, Source;
    if a == [] {
      assert a + b == b;
    } else {
      assert (a + b)[1..] == a[1..] + b;
      SegmentsAppend(lang, a[1..], b);
    }
  }

  /** What stands before the code of block k, in the page and in the script. */
  function PageFront(lead: string, segs: seq<Segment>, k: nat): string
    requires k < |segs| && segs[k].Block?
  {
    (lead + Sources(segs[..k])) + ("<%" + segs[k].inner[..LeadingSpace(segs[k].inner)])
  }

  function ScriptFront(lang: Lang, lead: string, segs: seq<Segment>, k: nat): string
    requires k < |segs| && segs[k].Block?
  {
    (Returns(lead) + SegmentScripts(lang, segs[..k])) + Returns(segs[k].inner[..LeadingSpace(segs[k].inner)])
  }

  /**
    Line numbers are kept.  Before the code of each block there are as many line feeds in the script
    as in the page, so an error in line n of the script is in line n of the page; and so in total.
  */
  lemma LinesAreKept(lang: Lang, page: string, k: nat)
    ensures Compile(lang, page).Script? ==>
      var lead := page[..LeadingSpace(page)];
      var script := Compile(lang, page).text;
      var segs := Segments(page[LeadingSpace(page)..]).value;
      && LineFeeds(script) == LineFeeds(page)
      && (k < |segs| && segs[k].Block? ==>
            && PageFront(lead, segs, k) + Code(segs[k].inner) <= page
            && ScriptFront(lang, lead, segs, k) + CodeScript(lang, Code(segs[k].inner)) <= script
            && LineFeeds(ScriptFront(lang, lead, segs, k)) == LineFeeds(PageFront(lead, segs, k)))
  {
    hide LineFeeds, Returns, LeadingSpace, Segments, SegmentScripts, Sources, CodeScript, Ending, Sizing, SkipSpace;
    if !Compile(lang, page).Script? {
      return;
    }
    var lead, body := page[..LeadingSpace(page)], page[LeadingSpace(page)..];
    var segs := Segments(body).value;
    SegmentsMakeThePage(body);
    assert lead + body == page;
    LineFeedsOfReturns(lead);
    LineFeedsOfSegments(lang, segs);
    LineFeedsAppend(lead, body);
    LineFeedsAppend(Returns(lead), SegmentScripts(lang, segs));
    if k < |segs| && segs[k].Block? {
      FrontsAgree(lang, lead, segs, k);
      BlockInPlace(lang, lead, segs, k);
    }
  }

  lemma FrontsAgree(lang: Lang, lead: string, segs: seq<Segment>, k: nat)
    requires k < |segs| && segs[k].Block?
    ensures LineFeeds(ScriptFront(lang, lead, segs, k)) == LineFeeds(PageFront(lead, segs, k))
  {
    hide LineFeeds, Returns, LeadingSpace, SegmentScripts, Sources;
    var space := segs[k].inner[..LeadingSpace(segs[k].inner)];
    LineFeedsOfReturns(lead);
    LineFeedsOfReturns(space);
    LineFeedsOfSegments(lang, segs[..k]);
    LineFeedsAppend(lead, Sources(segs[..k]));
    LineFeedsAppend(Returns(lead), SegmentScripts(lang, segs[..k]));
    LineFeedsAppend(Returns(lead) + SegmentScripts(lang, segs[..k]), Returns(space));
    TwoCharacters();
    LineFeedsAppend("<%", space);
    LineFeedsAppend(lead + Sources(segs[..k]), "<%" + space);
  }

  lemma OneOf(lang: Lang, segs: seq<Segment>, k: nat)
    requires k < |segs|
    ensures SegmentScripts(lang, segs) ==
      SegmentScripts(lang, segs[..k]) + (SegmentScript(lang, segs[k]) + SegmentScripts(lang, segs[k + 1..]))
    ensures Sources(segs) == Sources(segs[..k]) + (Source(segs[k]) + Sources(segs[k + 1..]))
  {
    hide SegmentScript, Source;
    SegmentsAppend(lang, segs[..k], segs[k..]);
    assert segs[..k] + segs[k..] == segs && segs[k..][1..] == segs[k + 1..];
  }

  lemma Prefix(a: string, b: string)
    ensures a <= a + b
  {
  }

  lemma BlockInPlace(lang: Lang, lead: string, segs: seq<Segment>, k: nat)
    requires k < |segs| && segs[k].Block?
    ensures PageFront(lead, segs, k) + Code(segs[k].inner) <= lead + Sources(segs)
    ensures ScriptFront(lang, lead, segs, k) + CodeScript(lang, Code(segs[k].inner))
      <= Returns(lead) + SegmentScripts(lang, segs)
  {
    hide Returns, LeadingSpace, SegmentScripts, Sources, CodeScript, Ending;
    OneOf(lang, segs, k);
    PageInPlace(lead, Sources(segs[..k]), segs[k], Sources(segs[k + 1..]));
    ScriptInPlace(lang, Returns(lead), SegmentScripts(lang, segs[..k]), segs[k], SegmentScripts(lang, segs[k + 1..]));
  }

  lemma PageInPlace(lead: string, before: string, seg: Segment, behind: string)
    requires seg.Block?
    ensures ((lead + before) + ("<%" + seg.inner[..LeadingSpace(seg.inner)])) + Code(seg.inner)
      <= lead + (before + (Source(seg) + behind))
  {
    hide LeadingSpace;
    var n := LeadingSpace(seg.inner);
    var space, code := seg.inner[..n], Code(seg.inner);
    assert space + code == seg.inner;
    Regroup(lead, before, Source(seg) + behind);
    Regroup(lead + before, "<%" + space, code);
    Regroup("<%", space, code);
    Regroup("<%" + seg.inner, "%>", seg.after);
    Regroup("<%" + seg.inner, "%>" + seg.after, behind);
    Regroup(lead + before, "<%" + seg.inner, ("%>" + seg.after) + behind);
    Prefix((lead + before) + ("<%" + seg.inner), ("%>" + seg.after) + behind);
  }

  lemma ScriptInPlace(lang: Lang, lead: string, before: string, seg: Segment, behind: string)
    requires seg.Block?
    ensures ((lead + before) + Returns(seg.inner[..LeadingSpace(seg.inner)])) + CodeScript(lang, Code(seg.inner))
      <= lead + (before + (SegmentScript(lang, seg) + behind))
  {
    hide LeadingSpace, Returns, CodeScript, Ending;
    var feeds, code := Returns(seg.inner[..LeadingSpace(seg.inner)]), CodeScript(lang, Code(seg.inner));
    var end := Ending(lang, seg.after);
    Regroup(lead, before, SegmentScript(lang, seg) + behind);
    Regroup(lead + before, feeds, code);
    Regroup(feeds + code, end, behind);
    Regroup(lead + before, feeds + code, end + behind);
    Prefix((lead + before) + (feeds + code), end + behind);
  }

  // ---------- Sizes ----------

  /** What the sizing pass adds for a segment. */
  function Extra(lang: Lang, seg: Segment): nat {
    match seg
    case Plain(text) => ExtraOfPlain(lang, text)
    case Block(inner, _) => if Code(inner) != [] && Code(inner)[0] == '=' then EXP_WRITE_ADD else 0
  }

  function Extras(lang: Lang, segs: seq<Segment>): nat {
    if segs == [] then 0 else Extra(lang, segs[0]) + Extras(lang, segs[1..])
  }

  lemma {:induction false} JsEscapeFits(text: string)
    ensures |EscapeAll(JScript, text)| + 2 * LineFeeds(text) <= |text| + ExtraOfText(JScript, text)
  {
    if text != [] {
      JsEscapeFits(text[1..]);
    }
  }

  lemma {:induction false} JsTakesOneStatement(text: string, used: nat)
    ensures StatementLength(JScript, text, used) == |text|
    decreases |text|
  {
    if text != [] {
      JsTakesOneStatement(text[1..], used + |Escape(JScript, text[0])|);
    }
  }

  lemma {:induction false} CrlfsLength(n: nat)
    ensures |Crlfs(n)| == 2 * n
  {
    if n > 0 {
      CrlfsLength(n - 1);
    }
  }

  lemma {:induction false} ReturnsFit(s: string)
    ensures |Returns(s)| <= |s|
  {
    if s != [] {
      ReturnsFit(s[1..]);
    }
  }

  lemma JsSegmentFits(seg: Segment)
    ensures |SegmentScript(JScript, seg)| <= |Source(seg)| + Extra(JScript, seg)
  {
    hide EscapeAll, LineFeeds, ExtraOfText, Crlfs, Returns, LeadingSpace, StatementLength;
    match seg
    case Plain(text) =>
      JsEscapeFits(text);
      JsTakesOneStatement(text, |HTML_BEGIN|);
      CrlfsLength(LineFeeds(text));
      if text == [] {
        JsEscapeFits([]);
      } else {
        assert text[|text|..] == [] && text[..|text|] == text;
        assert Statements(JScript, text) == Statement(JScript, text) + "";
      }
    case Block(inner, after) =>
      BlockFits(JScript, inner, after);
  }

  lemma BlockFits(lang: Lang, inner: string, after: string)
    ensures var seg := Block(inner, after); |SegmentScript(lang, seg)| <= |Source(seg)| + Extra(lang, seg)
  {
    hide Returns, LeadingSpace;
    var n := LeadingSpace(inner);
    ReturnsFit(inner[..n]);
    ReturnsFit(inner[n..]);
    ReturnsFit(after);
  }

  // ---------- Room for VBScript ----------

  /** Into how many statements a text is split. */
  function StatementCount(lang: Lang, text: string): nat
    decreases |text|
  {
    if text == [] then 0 else 1 + StatementCount(lang, text[StatementLength(lang, text, |HTML_BEGIN|)..])
  }

  /** Each statement has 24 characters of its own. */
  lemma {:induction false} StatementsTake(lang: Lang, text: string)
    ensures |Statements(lang, text)| == 24 * StatementCount(lang, text) + |EscapeAll(lang, text)|
    decreases |text|
  {
    hide StatementLength, EscapeAll;
    if text == [] {
      NothingToEscape(lang);
    } else {
      var n := StatementLength(lang, text, |HTML_BEGIN|);
      StatementsTake(lang, text[n..]);
      EscapeAllAppend(lang, text[..n], text[n..]);
      assert text[..n] + text[n..] == text;
      StatementTakes(lang, text[..n]);
    }
  }

  lemma NothingToEscape(lang: Lang)
    ensures EscapeAll(lang, "") == ""
  {
  }

  lemma StatementTakes(lang: Lang, text: string)
    ensures |Statement(lang, text)| == 24 + |EscapeAll(lang, text)|
  {
    hide EscapeAll;
  }

  /** What is reserved, by the characters of the text: as literals of the two languages count them. */
  lemma {:induction false} ExtraOfTextCounted(lang: Lang, text: string)
    ensures var m := multiset(text);
      ExtraOfText(lang, text) ==
        if lang == VBScript then 11 * m['\"'] + 21 * m['\n'] else m['\"'] + 6 * m['\n'] + m['\\']
  {
    if text != [] {
      ExtraOfTextCounted(lang, text[1..]);
      ExtraOfCharCounted(lang, text[0]);
      hide ExtraOfChar;
      assert text == [text[0]] + text[1..];
      assert multiset(text) == multiset([text[0]]) + multiset(text[1..]);
    }
  }

  lemma ExtraOfCharCounted(lang: Lang, c: char)
    ensures ExtraOfChar(lang, c) ==
      if c == '\"' then if lang == VBScript then 11 else 1
      else if c == '\n' then if lang == VBScript then 21 else 6
      else if c == '\\' && lang == JScript then 1 else 0
  {
  }

  lemma RoomCounted(lang: Lang, text: string)
    ensures ExtraOfPlain(lang, text)
      == (if lang == VBScript then 24 * (1 + |text| / 1000) else 24) + ExtraOfText(lang, text)
    ensures EXP_WRITE_ADD == 20
  {
    hide ExtraOfText;
  }

  lemma {:induction false} VbEscapeFits(text: string)
    ensures |EscapeAll(VBScript, text)| + 2 * LineFeeds(text) <= |text| + ExtraOfText(VBScript, text)
  {
    if text != [] {
      VbEscapeFits(text[1..]);
    }
  }

  /**
    The room for plain text in VBScript is enough whenever the text is split into no more statements than
    it has thousands of characters begun: always, if it takes one statement.
  */
  lemma VbSegmentFits(seg: Segment)
    requires seg.Plain? ==> StatementCount(VBScript, seg.text) <= 1 + |seg.text| / 1000
    ensures |SegmentScript(VBScript, seg)| <= |Source(seg)| + Extra(VBScript, seg)
  {
    hide EscapeAll, LineFeeds, ExtraOfText, ExtraOfPlain, Crlfs, Statements, StatementCount;
    match seg
    case Plain(text) =>
      VbEscapeFits(text);
      StatementsTake(VBScript, text);
      CrlfsLength(LineFeeds(text));
      RoomCounted(VBScript, text);
    case Block(inner, after) =>
      BlockFits(VBScript, inner, after);
  }

  /** Text takes one statement if its literal has less than 983 characters. */
  lemma VbTakesOneStatement(text: string)
    requires text != [] && |EscapeAll(VBScript, text)| < 983
    ensures StatementCount(VBScript, text) == 1
  {
    hide EscapeAll;
    VbTakesAll(text, |HTML_BEGIN|);
    assert text[|text|..] == [];
  }

  lemma {:induction false} VbTakesAll(text: string, used: nat)
    requires used + |EscapeAll(VBScript, text)| < 1000
    ensures StatementLength(VBScript, text, used) == |text|
    decreases |text|
  {
    if text != [] {
      VbTakesAll(text[1..], used + |Escape(VBScript, text[0])|);
    }
  }

  lemma {:induction false} VbSegmentsFit(segs: seq<Segment>)
    requires forall i :: 0 <= i < |segs| && segs[i].Plain? ==>
      StatementCount(VBScript, segs[i].text) <= 1 + |segs[i].text| / 1000
    ensures |SegmentScripts(VBScript, segs)| <= |Sources(segs)| + Extras(VBScript, segs)
  {
    hide SegmentScript, Source, Extra, StatementCount;
    if segs != [] {
      VbSegmentFits(segs[0]);
      VbSegmentsFit(segs[1..]);
    }
  }

  // ---------- Room for JScript ----------

  lemma {:induction false} JsSegmentsFit(segs: seq<Segment>)
    ensures |SegmentScripts(JScript, segs)| <= |Sources(segs)| + Extras(JScript, segs)
  {
    hide SegmentScript, Source, Extra;
    if segs != [] {
      JsSegmentFits(segs[0]);
      JsSegmentsFit(segs[1..]);
    }
  }

  /** No "<%>", where the sizing pass sees the end of a block and the compiler does not. */
  predicate NoHole(s: string) {
    forall i :: 0 <= i < |s| - 2 ==> !(s[i] == '<' && s[i + 1] == '%' && s[i + 2] == '>')
  }

  lemma NoHoleBehind(s: string, i: nat)
    requires NoHole(s) && i <= |s|
    ensures NoHole(s[i..])
  {
    forall k | 0 <= k < |s[i..]| - 2 ensures !(s[i..][k] == '<' && s[i..][k + 1] == '%' && s[i..][k + 2] == '>') {
      assert s[i..][k] == s[i + k] && s[i..][k + 1] == s[i + k + 1] && s[i..][k + 2] == s[i + k + 2];
    }
  }

  lemma SameEnd(s: string)
    requires StartsBlock(s) && NoHole(s)
    ensures FindPair(s, '%', '>') == 2 + FindPair(s[2..], '%', '>')
  {
    assert s[1..][1..] == s[2..];
    assert FindPair(s, '%', '>') == 1 + FindPair(s[1..], '%', '>');
    assert |s| > 2 ==> s[1..][1] != '>' by { if |s| > 2 { assert !(s[0] == '<' && s[1] == '%' && s[2] == '>'); } }
  }

  /** The first solid character of a block decides, wherever one looks from. */
  lemma {:induction false} SameFirst(t: string, e: nat)
    requires e < |t| && t[e] == '%'
    ensures ExtraOfBlock(t) == if Code(t[..e]) != [] && Code(t[..e])[0] == '=' then EXP_WRITE_ADD else 0
  {
    SkipSpaceIsRest(t);
    var n, m := LeadingSpace(t), LeadingSpace(t[..e]);
    if m < e {
      LeadingSpaceUnique(t, m);
    } else {
      assert Code(t[..e]) == [];
      LeadingSpaceUnique(t, e);
    }
  }

  lemma BlockAgrees(s: string)
    requires StartsBlock(s) && NoHole(s)
    ensures (TakeBlock(s).None? <==> FindPair(s, '%', '>') == |s|)
    ensures TakeBlock(s).Some? ==>
      var (inner, after, rest) := TakeBlock(s).value;
      && rest == SkipSpace(s[FindPair(s, '%', '>') + 2..]) && NoHole(rest)
      && forall lang :: Extra(lang, Block(inner, after)) == ExtraOfBlock(s[2..])
  {
    hide FindPair, SkipSpace, NoHole, LeadingSpace, ExtraOfBlock, Code;
    SameEnd(s);
    var e := FindPair(s[2..], '%', '>');
    if e < |s| - 2 {
      assert s[2..][e] == '%';
      var rest := s[e + 4..];
      SkipSpaceIsRest(rest);
      SameFirst(s[2..], e);
      NoHoleBehind(s, e + 4);
      NoHoleBehind(rest, LeadingSpace(rest));
    }
  }

  function Total(lang: Lang, segs: Option<seq<Segment>>): Option<nat> {
    match segs case None => None case Some(s) => Some(Extras(lang, s))
  }

  lemma {:induction false} SizingAgrees(lang: Lang, s: string)
    requires NoHole(s)
    ensures Sizing(lang, s) == Total(lang, Segments(s))
    decreases |s|
  {
    hide TakeBlock, FindPair, SkipSpace, NoHole, ExtraOfBlock, PlainLength, Plus, InFront, Total, Extra;
    if s == [] {
      NoExtras(lang);
    } else if StartsBlock(s) {
      BlockAgrees(s);
      NoExtras(lang);
      if TakeBlock(s).Some? {
        var (inner, after, rest) := TakeBlock(s).value;
        SizingAgrees(lang, rest);
        TotalInFront(lang, Block(inner, after), Segments(rest));
      }
    } else {
      var e := PlainLength(s);
      NoHoleBehind(s, e);
      SizingAgrees(lang, s[e..]);
      TotalInFront(lang, Plain(s[..e]), Segments(s[e..]));
      ExtraOfPlainIs(lang, s[..e]);
    }
  }

  lemma NoExtras(lang: Lang)
    ensures Total(lang, Some([])) == Some(0) && Total(lang, None) == None
  {
  }

  lemma ExtraOfPlainIs(lang: Lang, text: string)
    ensures Extra(lang, Plain(text)) == ExtraOfPlain(lang, text)
  {
  }

  lemma TotalInFront(lang: Lang, seg: Segment, more: Option<seq<Segment>>)
    ensures Total(lang, InFront(seg, more)) == Plus(Extra(lang, seg), Total(lang, more))
  {
    hide Extra;
    if more.Some? {
      assert ([seg] + more.value)[1..] == more.value;
    }
  }

  /** Without "<%>" both passes agree on where blocks end: no search fails behind the sizing pass. */
  lemma NoSearchFails(lang: Lang, page: string)
    requires NoHole(page)
    ensures Compile(lang, page) != NullSearch
    ensures Compile(lang, page).Script? <==> Segments(page[LeadingSpace(page)..]).Some?
  {
    SkipSpaceIsRest(page);
    NoHoleBehind(page, LeadingSpace(page));
    SizingAgrees(lang, SkipSpace(page));
  }

  /** With it they do not: the smallest page that gets past the sizing pass and stops the compiler. */
  lemma HoleIsNotSeen(lang: Lang)
    ensures Compile(lang, "<%>") == NullSearch
  {
    var s := "<%>";
    assert s[2..] == ">" && s[1..] == "%>";
    assert FindPair(s[1..], '%', '>') == 0 && FindPair(s, '%', '>') == 1;
    assert SkipSpace(s) == s && LeadingSpace(s) == 0 && s[0..] == s;
    assert FindPair(s[2..], '%', '>') == 1 && TakeBlock(s) == None;
    assert s[3..] == "" && SkipSpace(s[3..]) == "";
    assert Sizing(lang, "") == Some(0);
  }

  // ---------- When a search fails behind the sizing pass ----------

  predicate NoPair(s: string, a: char, b: char) {
    forall i :: 0 <= i < |s| - 1 ==> !(s[i] == a && s[i + 1] == b)
  }

  /** A "<%>" behind complete segments, with no mark of a block behind it. */
  predicate HoleAt(s: string, p: int) {
    && 0 <= p < |s| - 2 && s[p] == '<' && s[p + 1] == '%' && s[p + 2] == '>'
    && Segments(s[..p]).Some?
    && NoPair(s[p + 2..], '%', '>') && NoPair(s[p + 2..], '<', '%')
  }

  /** In a C string, FindPair finds the first pair, if there is one. */
  lemma {:induction false} FindPairExactly(s: string, a: char, b: char)
    requires NoNul(s)
    ensures var i := FindPair(s, a, b);
      && (i == |s| <==> NoPair(s, a, b))
      && forall k :: 0 <= k < i && k < |s| - 1 ==> !(s[k] == a && s[k + 1] == b)
  {
    if |s| >= 2 && !(s[0] == a && s[1] == b) {
      var t := s[1..];
      FindPairExactly(t, a, b);
      var i := FindPair(t, a, b);
      forall k | 0 <= k < 1 + i && k < |s| - 1 ensures !(s[k] == a && s[k + 1] == b) {
        assert k > 0 ==> t[k - 1] == s[k] && t[k] == s[k + 1];
      }
      assert i < |t| ==> t[i] == s[i + 1] && t[i + 1] == s[i + 2];
    }
  }

  /** Only the first pair has that place. */
  lemma FindPairAt(s: string, a: char, b: char, i: nat)
    requires NoNul(s) && i + 2 <= |s| && s[i] == a && s[i + 1] == b
    requires forall k :: 0 <= k < i ==> !(s[k] == a && s[k + 1] == b)
    ensures FindPair(s, a, b) == i
  {
    FindPairExactly(s, a, b);
    assert !NoPair(s, a, b);
  }

  /** Where the first segment of s ends, if it does. */
  function FirstEnd(s: string): (r: Option<nat>)
    requires s != []
    ensures r.Some? ==> 0 < r.value <= |s|
  {
    if StartsBlock(s) then match TakeBlock(s) case None => None case Some((_, _, rest)) => Some(|s| - |rest|)
    else Some(PlainLength(s))
  }

  lemma CompleteStep(s: string)
    requires s != []
    ensures Segments(s).Some? <==> FirstEnd(s).Some? && Segments(s[FirstEnd(s).value..]).Some?
  {
    hide TakeBlock, PlainLength, StartsBlock;
    if StartsBlock(s) && TakeBlock(s).Some? {
      RestOfBlock(s);
    }
  }

  lemma RestOfBlock(s: string)
    requires StartsBlock(s) && TakeBlock(s).Some?
    ensures var rest := TakeBlock(s).value.2;
      s[|s| - |rest|..] == rest
  {
    hide FindPair, LeadingSpace;
    var behind := s[FindPair(s[2..], '%', '>') + 4..];
    var rest := behind[LeadingSpace(behind)..];
    assert TakeBlock(s).value.2 == rest;
    assert s[|s| - |behind|..] == behind && behind[|behind| - |rest|..] == rest;
    assert s[|s| - |rest|..] == behind[|behind| - |rest|..];
  }

  /** The end of a block, as a position: the first "%>" from its third character on, and the white space behind. */
  lemma BlockEnds(s: string)
    requires NoNul(s) && StartsBlock(s)
    ensures FirstEnd(s).Some? <==> !NoPair(s[2..], '%', '>')
    ensures FirstEnd(s).Some? ==>
      var e, j := FindPair(s[2..], '%', '>'), FirstEnd(s).value;
      && e + 4 <= j && s[e + 2] == '%' && s[e + 3] == '>'
      && (forall k :: 2 <= k < e + 2 ==> !(s[k] == '%' && s[k + 1] == '>'))
      && (forall k :: e + 4 <= k < j ==> IsSpace(s[k])) && (j < |s| ==> !IsSpace(s[j]))
  {
    hide FindPair;
    var t := s[2..];
    FindPairExactly(t, '%', '>');
    var e := FindPair(t, '%', '>');
    if e < |t| {
      var rest := s[e + 4..];
      var n := LeadingSpace(rest);
      assert FirstEnd(s) == Some(e + 4 + n);
      assert forall k :: e + 4 <= k < e + 4 + n ==> s[k] == rest[k - e - 4];
      assert n < |rest| ==> rest[n] == s[e + 4 + n];
      assert t[e] == s[e + 2] && t[e + 1] == s[e + 3];
      forall k | 2 <= k < e + 2 ensures !(s[k] == '%' && s[k + 1] == '>') {
        assert t[k - 2] == s[k] && t[k - 1] == s[k + 1];
      }
    }
  }

  lemma NoNulPart(s: string, i: nat, j: nat)
    requires NoNul(s) && i <= j <= |s|
    ensures NoNul(s[i..j]) && NoNul(s[i..]) && NoNul(s[..j])
  {
  }

  /** In front of a "<%" at p, the first segment ends before p or not, whether one looks at what is behind p or not. */
  lemma FirstInFront(s: string, p: nat)
    requires NoNul(s) && 0 < p <= |s| && StartsBlock(s[p..])
    ensures var u := FirstEnd(s[..p]);
      && (u.Some? <==> FirstEnd(s).Some? && FirstEnd(s).value <= p)
      && (u.Some? ==> u == FirstEnd(s))
  {
    hide FirstEnd, FindPair, PlainLength, LeadingSpace;
    var front := s[..p];
    NoNulPart(s, 0, p);
    assert s[p] == '<' && s[p + 1] == '%';
    if StartsBlock(s) {
      assert p >= 2 && StartsBlock(front);
      BlockInFront(s, p);
    } else {
      assert !StartsBlock(front);
      PlainInFront(s, p);
    }
  }

  lemma PlainInFront(s: string, p: nat)
    requires NoNul(s) && 0 < p <= |s| - 2 && s[p] == '<' && s[p + 1] == '%' && !StartsBlock(s) && !StartsBlock(s[..p])
    ensures FirstEnd(s[..p]) == FirstEnd(s) && FirstEnd(s).Some? && FirstEnd(s).value <= p
  {
    hide FindPair;
    var front := s[..p];
    NoNulPart(s, 0, p);
    FindPairExactly(s, '<', '%');
    FindPairExactly(front, '<', '%');
    var e := FindPair(s, '<', '%');
    assert e <= p;
    if e < p {
      assert e + 1 < p;
      assert front[e] == '<' && front[e + 1] == '%';
      FindPairAt(front, '<', '%', e);
    } else {
      assert NoPair(front, '<', '%');
    }
  }

  lemma BlockInFront(s: string, p: nat)
    requires NoNul(s) && 2 <= p <= |s| - 2 && s[p] == '<' && s[p + 1] == '%' && StartsBlock(s) && StartsBlock(s[..p])
    ensures var u := FirstEnd(s[..p]);
      && (u.Some? <==> FirstEnd(s).Some? && FirstEnd(s).value <= p)
      && (u.Some? ==> u == FirstEnd(s))
  {
    hide FindPair, FirstEnd;
    var front := s[..p];
    NoNulPart(s, 0, p);
    if FirstEnd(s).Some? && FirstEnd(s).value <= p {
      BlockEnds(s);
      BlockEndIs(front, FindPair(s[2..], '%', '>'), FirstEnd(s).value);
    }
    if FirstEnd(front).Some? {
      BlockEnds(front);
      BlockEndIs(s, FindPair(front[2..], '%', '>'), FirstEnd(front).value);
    }
  }

  lemma BlockEndIs(s: string, e: nat, j: nat)
    requires NoNul(s) && StartsBlock(s) && e + 4 <= j <= |s| && s[e + 2] == '%' && s[e + 3] == '>'
    requires forall k :: 2 <= k < e + 2 ==> !(s[k] == '%' && s[k + 1] == '>')
    requires (forall k :: e + 4 <= k < j ==> IsSpace(s[k])) && (j < |s| ==> !IsSpace(s[j]))
    ensures FirstEnd(s) == Some(j)
  {
    hide FindPair, LeadingSpace, NoNul;
    var t := s[2..];
    NoNulPart(s, 2, |s|);
    forall k | 0 <= k < e ensures !(t[k] == '%' && t[k + 1] == '>') {
      assert t[k] == s[k + 2] && t[k + 1] == s[k + 3];
    }
    FindPairAt(t, '%', '>', e);
    var rest := s[e + 4..];
    assert forall k :: 0 <= k < |rest| ==> rest[k] == s[e + 4 + k];
    LeadingSpaceUnique(rest, j - e - 4);
  }

  /** Behind complete segments, the rest decides. */
  lemma {:induction false} SegmentsFrom(s: string, p: nat)
    requires NoNul(s) && p <= |s| && StartsBlock(s[p..]) && Segments(s[..p]).Some?
    ensures Segments(s).Some? <==> Segments(s[p..]).Some?
    decreases p
  {
    hide FirstEnd, Segments;
    if p > 0 {
      var front := s[..p];
      FirstInFront(s, p);
      CompleteStep(s);
      CompleteStep(front);
      var j := FirstEnd(s).value;
      assert front[j..] == s[j..][..p - j] && s[j..][p - j..] == s[p..];
      NoNulPart(s, j, |s|);
      SegmentsFrom(s[j..], p - j);
    } else {
      assert s[0..] == s;
    }
  }

  /** Where the compiler fails: at a block behind complete segments that has no end. */
  lemma {:induction false} FailsAt(s: string) returns (p: nat)
    requires NoNul(s) && Segments(s).None?
    ensures p <= |s| && StartsBlock(s[p..]) && Segments(s[..p]).Some? && NoPair(s[p + 2..], '%', '>')
    decreases |s|
  {
    hide FirstEnd, Segments;
    EmptyIsComplete();
    CompleteStep(s);
    if FirstEnd(s).None? {
      p := 0;
      PlainHasEnd(s);
      BlockEnds(s);
      assert s[0..] == s && s[..0] == [];
    } else {
      var j := FirstEnd(s).value;
      NoNulPart(s, j, |s|);
      var q := FailsAt(s[j..]);
      p := j + q;
      assert s[j..][q..] == s[p..] && s[j..][q + 2..] == s[p + 2..] && s[..p][j..] == s[j..][..q];
      FirstInFront(s, p);
      CompleteStep(s[..p]);
    }
  }

  lemma EmptyIsComplete()
    ensures Segments("").Some?
  {
  }

  lemma PlainHasEnd(s: string)
    requires s != []
    ensures !StartsBlock(s) ==> FirstEnd(s).Some?
  {
  }

  /** A block that is begun and not ended leaves segments incomplete, wherever it is. */
  lemma {:induction false} OpenBlock(u: string, b: nat)
    requires NoNul(u) && b <= |u| - 2 && u[b] == '<' && u[b + 1] == '%' && NoPair(u[b..], '%', '>')
    ensures Segments(u).None?
    decreases |u|
  {
    hide FirstEnd, Segments, NoPair;
    CompleteStep(u);
    if FirstEnd(u).Some? {
      var j := FirstEnd(u).value;
      EndsInFront(u, b);
      NoNulPart(u, j, |u|);
      assert u[j..][b - j..] == u[b..];
      OpenBlock(u[j..], b - j);
    }
  }

  lemma EndsInFront(u: string, b: nat)
    requires NoNul(u) && b <= |u| - 2 && u[b] == '<' && u[b + 1] == '%' && NoPair(u[b..], '%', '>') && FirstEnd(u).Some?
    ensures FirstEnd(u).value <= b
  {
    hide FindPair, FirstEnd;
    if StartsBlock(u) {
      BlockEnds(u);
      var e, j := FindPair(u[2..], '%', '>'), FirstEnd(u).value;
      NoPairFrom(u, b);
      assert e + 2 < b;
      assert u[e + 3] != u[b] && !IsSpace(u[b]);
    } else {
      PlainEndsInFront(u, b);
    }
  }

  lemma NoPairFrom(u: string, b: nat)
    requires b <= |u| && NoPair(u[b..], '%', '>')
    ensures forall k :: b <= k < |u| - 1 ==> !(u[k] == '%' && u[k + 1] == '>')
  {
    forall k | b <= k < |u| - 1 ensures !(u[k] == '%' && u[k + 1] == '>') {
      assert u[b..][k - b] == u[k] && u[b..][k - b + 1] == u[k + 1];
    }
  }

  lemma PlainEndsInFront(u: string, b: nat)
    requires NoNul(u) && b <= |u| - 2 && u[b] == '<' && u[b + 1] == '%' && !StartsBlock(u)
    ensures FirstEnd(u).Some? && FirstEnd(u).value <= b
  {
    FindPairExactly(u, '<', '%');
  }

  /** Text without the end of a block passes the sizing pass exactly if it has no beginning of one. */
  lemma SizingWithoutEnds(lang: Lang, x: string)
    requires NoNul(x) && NoPair(x, '%', '>')
    ensures Sizing(lang, x).Some? <==> NoPair(x, '<', '%')
  {
    hide FindPair, ExtraOfPlain, ExtraOfBlock, SkipSpace;
    if x == [] {
    } else if StartsBlock(x) {
      FindPairExactly(x, '%', '>');
      assert x[0] == '<' && x[1] == '%';
    } else {
      FindPairExactly(x, '<', '%');
      var e := PlainLength(x);
      var t := x[e..];
      if e < |x| {
        assert t[0] == '<' && t[1] == '%' && x[e] == '<' && x[e + 1] == '%';
        NoNulPart(x, e, |x|);
        forall i | 0 <= i < |t| - 1 ensures !(t[i] == '%' && t[i + 1] == '>') {
          assert t[i] == x[e + i] && t[i + 1] == x[e + i + 1];
        }
        FindPairExactly(t, '%', '>');
      } else {
        assert t == [];
      }
    }
  }

  lemma SpaceHasNoPair(x: string, a: char, b: char)
    requires !IsSpace(a)
    ensures NoPair(SkipSpace(x), a, b) <==> NoPair(x, a, b)
  {
    SkipSpaceIsRest(x);
    var n := LeadingSpace(x);
    var y := x[n..];
    if NoPair(y, a, b) {
      forall i | 0 <= i < |x| - 1 ensures !(x[i] == a && x[i + 1] == b) {
        assert i >= n ==> y[i - n] == x[i] && y[i - n + 1] == x[i + 1];
      }
    } else {
      var i :| 0 <= i < |y| - 1 && y[i] == a && y[i + 1] == b;
      assert x[n + i] == a && x[n + i + 1] == b;
    }
  }

  /**
    The sizing pass at a block that the compiler finds no end of: it gets past it only at a hole with
    plain text behind.
  */
  lemma SizingAtOpenBlock(lang: Lang, t: string)
    requires NoNul(t) && StartsBlock(t) && NoPair(t[2..], '%', '>')
    ensures Sizing(lang, t).Some? <==> |t| > 2 && t[2] == '>' && NoPair(t[2..], '<', '%')
  {
    hide FindPair, ExtraOfBlock, SkipSpace, Sizing;
    FindPairExactly(t, '%', '>');
    if |t| > 2 && t[2] == '>' {
      FindPairAt(t, '%', '>', 1);
      var x := t[3..];
      TailHasNoPair(t[2..]);
      assert t[2..][1..] == x;
      SpaceHasNoPair(x, '%', '>');
      SpaceHasNoPair(x, '<', '%');
      NoNulPart(t, 3, |t|);
      SkipSpaceIsRest(x);
      NoNulPart(x, LeadingSpace(x), |x|);
      SizingWithoutEnds(lang, SkipSpace(x));
      SizingOfBlock(lang, t);
    } else {
      forall i | 0 <= i < |t| - 1 ensures !(t[i] == '%' && t[i + 1] == '>') {
        assert i >= 2 ==> t[2..][i - 2] == t[i] && t[2..][i - 1] == t[i + 1];
      }
      SizingOfBlock(lang, t);
    }
  }

  lemma TailHasNoPair(y: string)
    requires y != [] && y[0] == '>'
    ensures NoPair(y[1..], '<', '%') <==> NoPair(y, '<', '%')
    ensures NoPair(y[1..], '%', '>') <==> NoPair(y, '%', '>')
  {
    var z := y[1..];
    assert forall i :: 0 <= i < |z| ==> z[i] == y[i + 1];
    assert forall i :: 1 <= i < |y| ==> y[i] == z[i - 1];
  }

  lemma SizingOfBlock(lang: Lang, t: string)
    requires StartsBlock(t)
    ensures var e := FindPair(t, '%', '>');
      Sizing(lang, t).Some? <==> e < |t| && Sizing(lang, SkipSpace(t[e + 2..])).Some?
  {
  }

  /** The sizing pass comes to every block that the compiler finds no end of. */
  lemma {:induction false} SizingComesTo(lang: Lang, s: string, p: nat, i: nat)
    requires NoNul(s) && i <= p <= |s| && StartsBlock(s[p..]) && Segments(s[..p]).Some?
    ensures Sizing(lang, s[i..]).Some? <==> Sizing(lang, s[p..]).Some?
    decreases p - i
  {
    hide FindPair, Segments, Sizing, SkipSpace, LeadingSpace, StartsBlock, PlainLength;
    if i < p {
      NoNulPart(s, i, |s|);
      if StartsBlock(s[i..]) {
        var j := SizingPassesBlock(lang, s, p, i);
        SizingComesTo(lang, s, p, j);
      } else {
        var j := SizingPassesPlain(lang, s, p, i);
        SizingComesTo(lang, s, p, j);
      }
    }
  }

  lemma SizingPassesBlock(lang: Lang, s: string, p: nat, i: nat) returns (j: nat)
    requires NoNul(s) && i < p <= |s| && StartsBlock(s[p..]) && StartsBlock(s[i..]) && Segments(s[..p]).Some?
    ensures i < j <= p && (Sizing(lang, s[i..]).Some? <==> Sizing(lang, s[j..]).Some?)
  {
    hide FindPair, Segments, Sizing, SkipSpace, LeadingSpace, NoNul;
    var e := BlockIsOver(s, p, i);
    var from := i + e + 2;
    assert s[p] == '<';
    j := from + LeadingSpace(s[from..]);
    SpaceStops(s, from, p);
    assert s[i..][e + 2..] == s[from..];
    SizingOfBlock(lang, s[i..]);
  }

  lemma SpaceStops(s: string, from: nat, p: nat)
    requires from <= p < |s| && !IsSpace(s[p])
    ensures from + LeadingSpace(s[from..]) <= p && SkipSpace(s[from..]) == s[from + LeadingSpace(s[from..])..]
  {
    hide LeadingSpace, SkipSpace;
    var rest := s[from..];
    SkipSpaceIsRest(rest);
    assert rest[p - from] == s[p];
    assert rest[LeadingSpace(rest)..] == s[from + LeadingSpace(rest)..];
  }

  lemma SizingPassesPlain(lang: Lang, s: string, p: nat, i: nat) returns (j: nat)
    requires NoNul(s) && i < p <= |s| && StartsBlock(s[p..]) && !StartsBlock(s[i..])
    ensures i < j <= p && (Sizing(lang, s[i..]).Some? <==> Sizing(lang, s[j..]).Some?)
  {
    hide FindPair, Sizing;
    var t := s[i..];
    NoNulPart(s, i, |s|);
    FindPairExactly(t, '<', '%');
    assert s[p] == '<' && s[p + 1] == '%';
    assert t[p - i] == '<' && t[p - i + 1] == '%';
    j := i + PlainLength(t);
    assert t[PlainLength(t)..] == s[j..];
    SizingOfPlain(lang, t);
  }

  lemma SizingOfPlain(lang: Lang, t: string)
    requires t != [] && !StartsBlock(t)
    ensures Sizing(lang, t).Some? <==> Sizing(lang, t[PlainLength(t)..]).Some?
  {
    hide FindPair;
  }

  /** A block that begins in front of p is over before p, in the eyes of the sizing pass too. */
  lemma BlockIsOver(s: string, p: nat, i: nat) returns (e: nat)
    requires NoNul(s) && i < p <= |s| && StartsBlock(s[p..]) && StartsBlock(s[i..]) && Segments(s[..p]).Some?
    ensures e == FindPair(s[i..], '%', '>') < |s[i..]| && i + e + 2 <= p
  {
    hide FindPair, Segments;
    var front, t := s[..p], s[i..];
    assert s[p] == '<' && s[i + 1] == '%' && s[i] == '<';
    assert i + 2 <= p;
    NoNulPart(s, i, |s|);
    NoNulPart(s, 0, p);
    e := FindPair(t, '%', '>');
    FindPairExactly(t, '%', '>');
    if NoPair(front[i..], '%', '>') {
      OpenBlock(front, i);
    } else {
      var k :| 0 <= k < |front[i..]| - 1 && front[i..][k] == '%' && front[i..][k + 1] == '>';
      assert t[k] == '%' && t[k + 1] == '>';
    }
  }

  /**
    When exactly a search fails behind the sizing pass: the page has a "<%>" where the text in front
    of it falls into complete segments, and no mark of a block behind it.
  */
  lemma NullSearchExactly(lang: Lang, page: string)
    requires NoNul(page)
    ensures Compile(lang, page) == NullSearch <==> exists p :: HoleAt(SkipSpace(page), p)
  {
    hide Segments, Sizing, NoPair, LeadingSpace;
    var s := SkipSpace(page);
    SkipSpaceIsRest(page);
    NoNulPart(page, LeadingSpace(page), |page|);
    if Segments(s).None? {
      var p := FailsAt(s);
      SizingUpTo(lang, s, p);
      if Sizing(lang, s).Some? {
        assert HoleAt(s, p);
      }
    }
    if p :| HoleAt(s, p) {
      assert StartsBlock(s[p..]);
      SizingUpTo(lang, s, p);
      SegmentsFrom(s, p);
      NoEnd(s[p..]);
      assert s[p..][2..] == s[p + 2..];
    }
  }

  lemma NoEnd(t: string)
    requires NoNul(t) && StartsBlock(t) && NoPair(t[2..], '%', '>')
    ensures Segments(t).None?
  {
    hide FirstEnd;
    BlockEnds(t);
    CompleteStep(t);
  }

  lemma SizingUpTo(lang: Lang, s: string, p: nat)
    requires NoNul(s) && p <= |s| && StartsBlock(s[p..]) && Segments(s[..p]).Some? && NoPair(s[p + 2..], '%', '>')
    ensures Sizing(lang, s).Some? <==> |s| > p + 2 && s[p + 2] == '>' && NoPair(s[p + 2..], '<', '%')
  {
    hide Sizing, Segments, NoPair;
    assert s[0..] == s && s[p..][2..] == s[p + 2..];
    SizingComesTo(lang, s, p, 0);
    NoNulPart(s, p, |s|);
    SizingAtOpenBlock(lang, s[p..]);
  }

  /** The room reserved for a JScript page is enough. */
  lemma JScriptFits(page: string)
    requires NoHole(page) && Compile(JScript, page).Script?
    ensures Sizing(JScript, SkipSpace(page)).Some?
    ensures |Compile(JScript, page).text| <= |page| + Sizing(JScript, SkipSpace(page)).value
  {
    hide Segments, Sources, SegmentScripts, Extras, NoHole, Sizing;
    var n := LeadingSpace(page);
    SkipSpaceIsRest(page);
    NoHoleBehind(page, n);
    SizingAgrees(JScript, page[n..]);
    var segs := Segments(page[n..]).value;
    SegmentsMakeThePage(page[n..]);
    JsSegmentsFit(segs);
    ReturnsFit(page[..n]);
  }

  /** The room for a VBScript page is enough if no text in it is split into more statements than it has room for. */
  lemma VbScriptFits(page: string)
    requires NoHole(page) && Compile(VBScript, page).Script?
    ensures Sizing(VBScript, SkipSpace(page)).Some?
    ensures (forall seg :: seg in Segments(page[LeadingSpace(page)..]).value && seg.Plain? ==>
               StatementCount(VBScript, seg.text) <= 1 + |seg.text| / 1000) ==>
      |Compile(VBScript, page).text| <= |page| + Sizing(VBScript, SkipSpace(page)).value
  {
    hide Segments, Sources, SegmentScripts, Extras, NoHole, Sizing, StatementCount;
    var n := LeadingSpace(page);
    SkipSpaceIsRest(page);
    NoHoleBehind(page, n);
    SizingAgrees(VBScript, page[n..]);
    var segs := Segments(page[n..]).value;
    SegmentsMakeThePage(page[n..]);
    if forall seg :: seg in segs && seg.Plain? ==> StatementCount(VBScript, seg.text) <= 1 + |seg.text| / 1000 {
      VbSegmentsFit(segs);
    }
    ReturnsFit(page[..n]);
  }

  lemma {:induction false} VbTextFits(text: string, used: nat)
    requires used < MAX_VB_STRING
    ensures used + |EscapeAll(VBScript, text[..StatementLength(VBScript, text, used)])| < MAX_VB_STRING + |VB_NEWLINE|
    decreases |text|
  {
    hide Escape;
    var n := StatementLength(VBScript, text, used);
    if text != [] {
      var u := used + |Escape(VBScript, text[0])|;
      assert text[..n][1..] == text[1..][..n - 1];
      if u < MAX_VB_STRING {
        VbTextFits(text[1..], u);
      } else {
        assert text[1..][..0] == [];
      }
    }
  }

  /**
    No VBScript statement is longer than 1025 characters, so no string in it is longer than a VBScript
    string may be.
  */
  lemma VbStatementFits(text: string)
    ensures |Statement(VBScript, text[..StatementLength(VBScript, text, |HTML_BEGIN|)])| <= 1025
  {
    VbTextFits(text, |HTML_BEGIN|);
  }
}
