/** CASPState: the compiler's loops, which read the page and write the script. */
module AspCompiler {
  import opened CStrings
  import opened Options
  import opened AspPage
  import opened AspScript

  /** The sizing pass. */
  method CalculateBufferSize(page: string, lang: Lang) returns (extra: Option<nat>)
    ensures extra == Sizing(lang, SkipSpace(page))
  {
    hide Sizing, Part, FindPair, SkipSpace, ExtraOfPlain, ExtraOfBlock, Plus;
    var total: nat := 0;
    var trav := SkipWhite(page, 0);
    WholePart(page);
    ghost var whole := Sizing(lang, SkipSpace(page));
    PlusLaws(0, 0, whole);
    while trav < |page|
      invariant trav <= |page| && whole == Plus(total, Sizing(lang, Part(page, trav, |page|)))
    {
      ghost var s := Part(page, trav, |page|);
      SizingStep(lang, s);
      if trav + 1 < |page| && page[trav] == '<' && page[trav + 1] == '%' {
        var ok, more, next := SizeBlock(page, trav);
        if !ok {
          PlusLaws(total, 0, None);
          return None;
        }
        PlusLaws(total, more, Sizing(lang, Part(page, next, |page|)));
        total, trav := total + more, next;
      } else {
        assert !StartsBlock(s) by { if |s| >= 2 { NextOfPart(page, trav, |page|, 0); } }
        var end := MyStrStr(page, trav, '<', '%');
        StartOfPart(page, trav, |page|, end - trav);
        RestOfPart(page, trav, |page|, end - trav);
        var more := SizePlain(page, trav, end, lang);
        PlusLaws(total, more, Sizing(lang, Part(page, end, |page|)));
        total, trav := total + more, end;
      }
    }
    NothingMore(lang, Part(page, trav, |page|));
    PlusLaws(total, 0, None);
    return Some(total);
  }

  method SizeBlock(page: string, trav: nat) returns (ok: bool, more: nat, next: nat)
    requires trav + 1 < |page| && page[trav] == '<' && page[trav + 1] == '%'
    ensures var s := Part(page, trav, |page|);
      var e := FindPair(s, '%', '>');
      && StartsBlock(s) && ok == (e < |s|)
      && (ok ==>
            && more == ExtraOfBlock(s[2..]) && trav < next <= |page|
            && Part(page, next, |page|) == SkipSpace(s[e + 2..]))
  {
    hide Part, FindPair, SkipSpace;
    NextOfPart(page, trav, |page|, 0);
    var end := MyStrStr(page, trav, '%', '>');
    if end == |page| {
      return false, 0, trav;
    }
    RestOfPart(page, trav, |page|, 2);
    RestOfPart(page, trav, |page|, end - trav + 2);
    next := SkipWhite(page, trav + 2);
    more := if next < |page| && page[next] == '=' then EXP_WRITE_ADD else 0;
    next := SkipWhite(page, end + 2);
    return true, more, next;
  }

  lemma PlusLaws(n: nat, m: nat, more: Option<nat>)
    ensures Plus(0, more) == more && Plus(n, None) == None && Plus(n, Some(0)) == Some(n)
    ensures Plus(n, Plus(m, more)) == Plus(n + m, more)
  {
  }

  /** The sizing pass, one segment further. */
  lemma SizingStep(lang: Lang, s: string)
    requires s != []
    ensures StartsBlock(s) ==> var e := FindPair(s, '%', '>');
      Sizing(lang, s) == if e == |s| then None else Plus(ExtraOfBlock(s[2..]), Sizing(lang, SkipSpace(s[e + 2..])))
    ensures !StartsBlock(s) ==> var e := PlainLength(s);
      Sizing(lang, s) == Plus(ExtraOfPlain(lang, s[..e]), Sizing(lang, s[e..]))
  {
    hide FindPair, SkipSpace, ExtraOfPlain, ExtraOfBlock;
  }

  lemma NothingMore(lang: Lang, s: string)
    requires s == []
    ensures Sizing(lang, s) == Some(0)
  {
  }

  method SkipWhite(page: string, read: nat) returns (next: nat)
    requires read <= |page|
    ensures read <= next <= |page| && Part(page, next, |page|) == SkipSpace(Part(page, read, |page|))
  {
    hide Part;
    next := read;
    while next < |page| && IsSpace(page[next])
      invariant read <= next <= |page| && SkipSpace(Part(page, next, |page|)) == SkipSpace(Part(page, read, |page|))
    {
      RestOfPart(page, next, |page|, 1);
      next := next + 1;
    }
  }

  /** The position of the pair from `read` on, or the end of the page. */
  method MyStrStr(page: string, read: nat, a: char, b: char) returns (next: nat)
    requires read <= |page|
    ensures read <= next <= |page| && next - read == FindPair(Part(page, read, |page|), a, b)
  {
    assert page[read..] == Part(page, read, |page|);
    return read + FindPair(page[read..], a, b);
  }

  method SizePlain(page: string, start: nat, end: nat, lang: Lang) returns (extra: nat)
    requires start <= end <= |page|
    ensures extra == ExtraOfPlain(lang, Part(page, start, end))
  {
    hide Part, ExtraOfChar;
    extra := STRING_WRITE_ADD * (if lang == VBScript then 1 + (end - start) / MAX_VB_STRING else 1);
    ghost var first := extra;
    var trav := start;
    while trav < end
      invariant start <= trav <= end
      invariant extra + ExtraOfText(lang, Part(page, trav, end)) == first + ExtraOfText(lang, Part(page, start, end))
    {
      RestOfPart(page, trav, end, 1);
      extra := extra + ExtraOfChar(lang, page[trav]);
      trav := trav + 1;
    }
  }

  class AspState {
    const fileData: string
    const lang: Lang
    /** m_pszScriptData, as far as it is written. */
    var script: string

    constructor (fileData: string, lang: Lang)
      ensures this.fileData == fileData && this.lang == lang && script == ""
    {
      this.fileData, this.lang, script := fileData, lang, "";
    }

    /** Skips white space but copies line ends; says whether there were any. */
    method SkipWhiteWriteReturns(read: nat) returns (next: nat, wrote: bool)
      requires read <= |fileData|
      modifies this
      ensures read <= next <= |fileData| && next == read + LeadingSpace(Part(fileData, read, |fileData|))
      ensures script == old(script) + Returns(Part(fileData, read, next))
      ensures wrote <==> Returns(Part(fileData, read, next)) != ""
    {
      hide Part, Returns, LeadingSpace;
      next, wrote := read, false;
      ReturnsOfNone(Part(fileData, read, next));
      while next < |fileData| && IsSpace(fileData[next])
        invariant read <= next <= |fileData|
        invariant script == old(script) + Returns(Part(fileData, read, next))
        invariant wrote <==> Returns(Part(fileData, read, next)) != ""
        invariant next - read + LeadingSpace(Part(fileData, next, |fileData|))
          == LeadingSpace(Part(fileData, read, |fileData|))
      {
        ReturnsFurther(fileData, read, next);
        LeadingFurther(fileData, next);
        if fileData[next] == '\r' || fileData[next] == '\n' {
          wrote := true;
          script := script + [fileData[next]];
        }
        next := next + 1;
      }
      LeadingFurther(fileData, next);
    }

    /** Copies the line ends up to `end`. */
    method SkipToEndWriteReturns(read: nat, end: nat)
      requires read <= end <= |fileData|
      modifies this
      ensures script == old(script) + Returns(Part(fileData, read, end))
    {
      hide Part, Returns;
      var r := read;
      ReturnsOfNone(Part(fileData, read, r));
      while r < end
        invariant read <= r <= end && script == old(script) + Returns(Part(fileData, read, r))
      {
        ReturnsFurther(fileData, read, r);
        if fileData[r] == '\r' || fileData[r] == '\n' {
          script := script + [fileData[r]];
        }
        r := r + 1;
      }
    }

    /** One Response.Write statement for the text up to `end`, or as much of it as a VBScript string may hold. */
    method CopyStatement(read: nat, end: nat) returns (next: nat, feeds: nat)
      requires read < end <= |fileData|
      modifies this
      ensures next == read + StatementLength(lang, Part(fileData, read, end), |HTML_BEGIN|)
      ensures read < next <= end
      ensures script == old(script) + Statement(lang, Part(fileData, read, next))
      ensures feeds == LineFeeds(Part(fileData, read, next))
    {
      hide Part, EscapeAll, LineFeeds, StatementLength, HtmlEnd;
      var start := |script|;
      script := script + HTML_BEGIN;
      next, feeds := CopyChars(read, end, start);
      script := script + HtmlEnd(lang);
      ghost var escaped := EscapeAll(lang, Part(fileData, read, next));
      Regroup(old(script), HTML_BEGIN, escaped);
      Regroup(old(script), HTML_BEGIN + escaped, HtmlEnd(lang));
    }

    /** The text inside a statement that starts at `start` in the script. */
    method CopyChars(read: nat, end: nat, start: nat) returns (next: nat, feeds: nat)
      requires read < end <= |fileData| && start <= |script|
      modifies this
      ensures next == read + StatementLength(lang, Part(fileData, read, end), old(|script|) - start)
      ensures read < next <= end
      ensures script == old(script) + EscapeAll(lang, Part(fileData, read, next))
      ensures feeds == LineFeeds(Part(fileData, read, next))
    {
      hide Part, Escape, EscapeAll, LineFeeds, StatementLength;
      next, feeds := read, 0;
      ghost var length := StatementLength(lang, Part(fileData, read, end), |script| - start);
      EscapeOfNone(lang, Part(fileData, read, next));
      while next < end
        invariant read <= next <= end && start <= |script|
        invariant script == old(script) + EscapeAll(lang, Part(fileData, read, next))
        invariant feeds == LineFeeds(Part(fileData, read, next))
        invariant next - read + StatementLength(lang, Part(fileData, next, end), |script| - start) == length
      {
        EscapeFurther(lang, fileData, read, next);
        StatementFurther(lang, fileData, next, end, |script| - start);
        Regroup(old(script), EscapeAll(lang, Part(fileData, read, next)), Escape(lang, fileData[next]));
        script := script + Escape(lang, fileData[next]);
        if fileData[next] == '\n' {
          feeds := feeds + 1;
        }
        next := next + 1;
        if lang == VBScript && |script| - start >= MAX_VB_STRING {
          return;
        }
      }
      StatementFurther(lang, fileData, next, end, |script| - start);
    }

    method CopyPlainText(read: nat, end: nat)
      requires read <= end <= |fileData|
      modifies this
      ensures script == old(script) + PlainScript(lang, Part(fileData, read, end))
    {
      hide Part, Statement, Statements, LineFeeds, Crlfs, StatementLength;
      ghost var text := Part(fileData, read, end);
      var r, lineFeeds: nat := read, 0;
      ghost var done := "";
      while r < end
        invariant read <= r <= end
        invariant script == old(script) + done
        invariant done + Statements(lang, Part(fileData, r, end)) == Statements(lang, text)
        invariant lineFeeds + LineFeeds(Part(fileData, r, end)) == LineFeeds(text)
      {
        var next, feeds := CopyStatement(r, end);
        StatementsFurther(lang, fileData, r, next, end);
        done := done + Statement(lang, Part(fileData, r, next));
        r, lineFeeds := next, lineFeeds + feeds;
      }
      NoStatements(lang, Part(fileData, r, end));
      assert done + "" == done;
      WriteLineFeeds(lineFeeds);
      Regroup(old(script), done, Crlfs(lineFeeds));
    }

    method WriteLineFeeds(n: nat)
      modifies this
      ensures script == old(script) + Crlfs(n)
    {
      var lineFeeds := n;
      ghost var feeds := "";
      while lineFeeds > 0
        invariant 0 <= lineFeeds && script == old(script) + feeds && feeds + Crlfs(lineFeeds) == Crlfs(n)
      {
        script := script + "\r" + "\n";
        Regroup(feeds, "\r\n", Crlfs(lineFeeds - 1));
        feeds := feeds + "\r\n";
        lineFeeds := lineFeeds - 1;
      }
      assert feeds + "" == feeds;
    }

    /** A script block from behind its "<%" to its "%>". */
    method CopyScriptText(read: nat, end: nat)
      requires read <= end < |fileData| && fileData[end] == '%'
      modifies this
      ensures script == old(script) + BlockScript(lang, Part(fileData, read, end))
    {
      hide Part, Returns, LeadingSpace, CodeScript;
      LeadingStops(fileData, read, end);
      var r, _ := SkipWhiteWriteReturns(read);
      StartOfPart(fileData, read, end, r - read);
      RestOfPart(fileData, read, end, r - read);
      CopyCode(r, end);
      Regroup(old(script), Returns(Part(fileData, read, r)), CodeScript(lang, Part(fileData, r, end)));
    }

    method CopyCode(read: nat, end: nat)
      requires read <= end < |fileData| && fileData[end] == '%'
      modifies this
      ensures script == old(script) + CodeScript(lang, Part(fileData, read, end))
    {
      hide Part, Returns, ExpEnd;
      if fileData[read] == '@' {
        SkipToEndWriteReturns(read, end);
      } else if fileData[read] == '=' {
        RestOfPart(fileData, read, end, 1);
        ghost var code := Part(fileData, read + 1, end);
        Regroup(old(script), EXP_BEGIN, code);
        Regroup(old(script), EXP_BEGIN + code, ExpEnd(lang));
        script := script + EXP_BEGIN;
        script := script + ReadPart(read + 1, end);
        script := script + ExpEnd(lang);
      } else {
        script := script + ReadPart(read, end);
      }
    }

    function ReadPart(read: nat, end: nat): (s: string)
      requires read <= end <= |fileData|
      ensures s == Part(fileData, read, end)
    {
      fileData[read..end]
    }

    /** Compiles the page, unless a script block does not end. */
    method ConvertToScript() returns (outcome: Outcome)
      modifies this
      ensures outcome == Compile(lang, fileData) && (outcome.Script? ==> script == outcome.text)
    {
      hide Part, Returns, LeadingSpace, Segments, Sizing, SegmentScripts;
      var extra := CalculateBufferSize(fileData, lang);
      if extra.None? {
        return NoScriptTerminator;
      }
      script := "";
      var read, _ := SkipWhiteWriteReturns(0);
      WholePart(fileData);
      StartOfPart(fileData, 0, |fileData|, read);
      RestOfPart(fileData, 0, |fileData|, read);
      var ok := ConvertSegments(read);
      if !ok {
        return NullSearch;
      }
      return Script(script);
    }

    method ConvertSegments(start: nat) returns (ok: bool)
      requires start <= |fileData|
      modifies this
      ensures ok <==> Segments(Part(fileData, start, |fileData|)).Some?
      ensures ok ==> script == old(script) + SegmentScripts(lang, Segments(Part(fileData, start, |fileData|)).value)
    {
      hide Part, Segments, SegmentScripts;
      var read := start;
      ghost var whole := Continue(lang, old(script), Segments(Part(fileData, read, |fileData|)));
      while read < |fileData|
        invariant read <= |fileData| && whole == Continue(lang, script, Segments(Part(fileData, read, |fileData|)))
      {
        ghost var s := Part(fileData, read, |fileData|);
        if read + 1 < |fileData| && fileData[read] == '<' && fileData[read + 1] == '%' {
          ok, read := ConvertBlock(read);
          if !ok {
            return;
          }
        } else {
          read := ConvertPlain(read);
        }
      }
      NoSegments(lang, script, Part(fileData, read, |fileData|));
      return true;
    }

    method ConvertPlain(read: nat) returns (next: nat)
      requires read < |fileData|
      requires !(read + 1 < |fileData| && fileData[read] == '<' && fileData[read + 1] == '%')
      modifies this
      ensures read < next <= |fileData|
      ensures Continue(lang, script, Segments(Part(fileData, next, |fileData|)))
        == Continue(lang, old(script), Segments(Part(fileData, read, |fileData|)))
    {
      hide Part, Segments, SegmentScripts, FindPair, PlainScript, Continue;
      ghost var s := Part(fileData, read, |fileData|);
      assert !StartsBlock(s) by { if |s| >= 2 { NextOfPart(fileData, read, |fileData|, 0); } }
      next := MyStrStr(fileData, read, '<', '%');
      PlainStep(lang, script, s);
      StartOfPart(fileData, read, |fileData|, next - read);
      RestOfPart(fileData, read, |fileData|, next - read);
      CopyPlainText(read, next);
    }

    method ConvertBlock(read: nat) returns (ok: bool, next: nat)
      requires read + 1 < |fileData| && fileData[read] == '<' && fileData[read + 1] == '%'
      modifies this
      ensures read <= next <= |fileData| && (ok ==> read < next)
      ensures !ok ==> Segments(Part(fileData, read, |fileData|)) == None
      ensures ok ==> (Continue(lang, script, Segments(Part(fileData, next, |fileData|)))
        == Continue(lang, old(script), Segments(Part(fileData, read, |fileData|))))
    {
      hide Part, Segments, SegmentScripts, FindPair, BlockScript, Returns, LeadingSpace, Continue, TakeBlock;
      ghost var s := Part(fileData, read, |fileData|);
      next := read + 2;
      var end := MyStrStr(fileData, next, '%', '>');
      BlockIs(fileData, read, end);
      BlockStep(lang, script, s);
      if end == |fileData| {
        return false, next;
      }
      CopyScriptText(next, end);
      var wrote;
      ghost var front := script;
      next, wrote := SkipWhiteWriteReturns(end + 2);
      if !wrote {
        assert front + "" == front;
        script := script + [Separator(lang)];
      }
      assert script == front + Ending(lang, Part(fileData, end + 2, next));
      return true, next;
    }
  }

  lemma BlockIs(page: string, read: nat, end: nat)
    requires read + 1 < |page| && page[read] == '<' && page[read + 1] == '%'
    requires read + 2 <= end && end - read - 2 == FindPair(Part(page, read + 2, |page|), '%', '>')
    ensures var s := Part(page, read, |page|);
      && StartsBlock(s) && end <= |page| && (end == |page| ==> TakeBlock(s) == None)
      && (end < |page| ==>
            && end + 2 <= |page| && page[end] == '%'
            && var k := end + 2 + LeadingSpace(Part(page, end + 2, |page|));
               TakeBlock(s) == Some((Part(page, read + 2, end), Part(page, end + 2, k), Part(page, k, |page|))))
  {
    hide Part, FindPair, LeadingSpace;
    NextOfPart(page, read, |page|, 0);
    RestOfPart(page, read, |page|, 2);
    if end < |page| {
      NextOfPart(page, read + 2, |page|, end - read - 2);
      StartOfPart(page, read + 2, |page|, end - read - 2);
      RestOfPart(page, read, |page|, end - read + 2);
      var n := LeadingSpace(Part(page, end + 2, |page|));
      StartOfPart(page, end + 2, |page|, n);
      RestOfPart(page, end + 2, |page|, n);
    }
  }

  /** The script when `script` is written and `more` segments are to come. */
  ghost function Continue(lang: Lang, script: string, more: Option<seq<Segment>>): Option<string> {
    match more case None => None case Some(segs) => Some(script + SegmentScripts(lang, segs))
  }

  lemma NoSegments(lang: Lang, script: string, s: string)
    requires s == []
    ensures Continue(lang, script, Segments(s)) == Some(script)
  {
    assert script + "" == script;
  }

  lemma PlainStep(lang: Lang, script: string, s: string)
    requires s != [] && !StartsBlock(s)
    ensures var e := PlainLength(s);
      Continue(lang, script, Segments(s)) == Continue(lang, script + PlainScript(lang, s[..e]), Segments(s[e..]))
  {
    hide FindPair, PlainScript;
    var e := PlainLength(s);
    if Segments(s[e..]).Some? {
      ScriptsOfMore(lang, script, Plain(s[..e]), Segments(s[e..]).value);
    }
  }

  lemma BlockStep(lang: Lang, script: string, s: string)
    requires StartsBlock(s)
    ensures TakeBlock(s).None? ==> Segments(s) == None
    ensures TakeBlock(s).Some? ==>
      var (inner, after, rest) := TakeBlock(s).value;
      Continue(lang, script, Segments(s)) ==
        Continue(lang, (script + BlockScript(lang, inner)) + Ending(lang, after), Segments(rest))
  {
    hide TakeBlock, BlockScript, Ending;
    if TakeBlock(s).Some? {
      var (inner, after, rest) := TakeBlock(s).value;
      if Segments(rest).Some? {
        ScriptsOfMore(lang, script, Block(inner, after), Segments(rest).value);
        Regroup(script, BlockScript(lang, inner), Ending(lang, after));
      }
    }
  }

  lemma ScriptsOfMore(lang: Lang, script: string, seg: Segment, more: seq<Segment>)
    ensures script + SegmentScripts(lang, [seg] + more)
      == (script + SegmentScript(lang, seg)) + SegmentScripts(lang, more)
  {
    hide SegmentScript;
    assert ([seg] + more)[1..] == more;
    Regroup(script, SegmentScript(lang, seg), SegmentScripts(lang, more));
  }

  // ---------- One character further ----------

  lemma ReturnsOfNone(s: string)
    requires s == []
    ensures Returns(s) == ""
  {
  }

  lemma PartFurther(page: string, from: nat, to: nat)
    requires from <= to < |page|
    ensures Part(page, from, to + 1) == Part(page, from, to) + [page[to]]
  {
  }

  lemma ReturnsFurther(page: string, from: nat, to: nat)
    requires from <= to < |page|
    ensures Returns(Part(page, from, to + 1))
      == Returns(Part(page, from, to)) + (if IsReturn(page[to]) then [page[to]] else "")
  {
    hide Part;
    PartFurther(page, from, to);
    ReturnsAppend(Part(page, from, to), [page[to]]);
    assert [page[to]][1..] == [];
  }

  lemma LeadingFurther(page: string, at: nat)
    requires at <= |page|
    ensures LeadingSpace(Part(page, at, |page|)) ==
      if at < |page| && IsSpace(page[at]) then 1 + LeadingSpace(Part(page, at + 1, |page|)) else 0
  {
    hide Part;
    if at < |page| {
      RestOfPart(page, at, |page|, 1);
    }
  }

  lemma LeadingStops(page: string, read: nat, end: nat)
    requires read <= end < |page| && !IsSpace(page[end])
    ensures LeadingSpace(Part(page, read, |page|)) == LeadingSpace(Part(page, read, end))
    decreases end - read
  {
    hide Part, LeadingSpace;
    LeadingFurther(page, read);
    if read < end {
      LeadingStops(page, read + 1, end);
      RestOfPart(page, read, end, 1);
      LeadingOf(Part(page, read, end));
    } else {
      LeadingOf(Part(page, read, end));
    }
  }

  lemma LeadingOf(s: string)
    ensures LeadingSpace(s) == if s != [] && IsSpace(s[0]) then 1 + LeadingSpace(s[1..]) else 0
  {
  }

  lemma EscapeOfNone(lang: Lang, s: string)
    requires s == []
    ensures EscapeAll(lang, s) == "" && LineFeeds(s) == 0
  {
  }

  lemma EscapeFurther(lang: Lang, page: string, from: nat, to: nat)
    requires from <= to < |page|
    ensures EscapeAll(lang, Part(page, from, to + 1)) == EscapeAll(lang, Part(page, from, to)) + Escape(lang, page[to])
    ensures LineFeeds(Part(page, from, to + 1)) == LineFeeds(Part(page, from, to)) + (if page[to] == '\n' then 1 else 0)
  {
    hide Part, Escape;
    PartFurther(page, from, to);
    EscapeAllAppend(lang, Part(page, from, to), [page[to]]);
    LineFeedsAppend(Part(page, from, to), [page[to]]);
    assert [page[to]][1..] == [];
    assert EscapeAll(lang, []) == "";
    assert EscapeAll(lang, [page[to]]) == Escape(lang, page[to]) + EscapeAll(lang, []);
  }

  lemma StatementFurther(lang: Lang, page: string, at: nat, end: nat, used: nat)
    requires at <= end <= |page|
    ensures var n := StatementLength(lang, Part(page, at, end), used);
      if at == end then n == 0
      else
        var u := used + |Escape(lang, page[at])|;
        n == if lang == VBScript && u >= MAX_VB_STRING then 1 else 1 + StatementLength(lang, Part(page, at + 1, end), u)
  {
    hide Part, Escape;
    if at < end {
      RestOfPart(page, at, end, 1);
    }
  }

  lemma StatementsFurther(lang: Lang, page: string, at: nat, next: nat, end: nat)
    requires at < end <= |page| && next == at + StatementLength(lang, Part(page, at, end), |HTML_BEGIN|) && next <= end
    ensures Statements(lang, Part(page, at, end))
      == Statement(lang, Part(page, at, next)) + Statements(lang, Part(page, next, end))
    ensures LineFeeds(Part(page, at, end)) == LineFeeds(Part(page, at, next)) + LineFeeds(Part(page, next, end))
  {
    hide Part, Statement, StatementLength;
    StartOfPart(page, at, end, next - at);
    RestOfPart(page, at, end, next - at);
    var text := Part(page, at, end);
    assert text[..next - at] + text[next - at..] == text;
    LineFeedsAppend(text[..next - at], text[next - at..]);
  }

  lemma NoStatements(lang: Lang, s: string)
    requires s == []
    ensures Statements(lang, s) == "" && LineFeeds(s) == 0
  {
  }
}
