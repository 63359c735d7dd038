/**
  What a compiled page does when it runs.  The script is read as the script engine reads it: statement
  by statement, with string literals, escapes, chr() and "&"; the code that the page itself brought
  along is taken as it is, but for its comments: one that is open at the end of a block takes in what
  the compiler wrote behind it.
*/
module AspMeaning {
  import opened CStrings
  import opened Options
  import opened AspPage
  import opened AspScript

  /** The script in pieces: what the compiler wrote, and what it copied from the page. */
  datatype Piece = Emitted(text: string) | Copied(text: string)

  /** Text sent to the client; code run; an expression whose value is sent to the client. */
  datatype Event = Write(text: string) | Do(code: string) | Value(expression: string)

  /** Where the engine is between two pieces; Commented: in a comment that ends with the line. */
  datatype State = Idle | InWrite | AfterExpression | AfterCode | Commented

  const WRITE: string := "Response.Write("

  // ---------- Expressions ----------

  /** A string that has been read, and the text behind. */
  type Read = Option<(string, string)>

  function Cons(v: string, r: Read): Read {
    match r case None => None case Some((w, rest)) => Some((v + w, rest))
  }

  predicate StartsWith(s: string, word: string) {
    |word| <= |s| && s[..|word|] == word
  }

  /** A JScript string literal, from behind its opening quote. */
  function JsLiteral(s: string): Read {
    if s == [] || IsReturn(s[0]) then None
    else if s[0] == '\"' then Some(("", s[1..]))
    else if s[0] == '\\' then
      if |s| == 1 then None
      else if s[1] == 'r' then Cons("\r", JsLiteral(s[2..]))
      else if s[1] == 'n' then Cons("\n", JsLiteral(s[2..]))
      else if s[1] == '\"' || s[1] == '\\' then Cons([s[1]], JsLiteral(s[2..]))
      else None
    else Cons([s[0]], JsLiteral(s[1..]))
  }

  /** The character with the given two-digit code. */
  function Chr(d: char, e: char): char
    requires IsDigit(d) && IsDigit(e)
  {
    (10 * (d as int - '0' as int) + (e as int - '0' as int)) as char
  }

  predicate StartsChr(s: string) {
    && |s| >= 7 && s[0] == 'c' && s[1] == 'h' && s[2] == 'r' && s[3] == '('
    && IsDigit(s[4]) && IsDigit(s[5]) && s[6] == ')'
  }

  /** A VBScript string expression: literals and chr() calls with "&" between them. */
  function VbTerm(s: string): Read
    decreases |s|, 0
  {
    if s != [] && s[0] == '\"' then VbInside(s[1..])
    else if StartsChr(s) then Cons([Chr(s[4], s[5])], VbAfter(s[7..]))
    else None
  }

  /** Inside a literal; two quotes in a row stand for one. */
  function VbInside(s: string): Read
    decreases |s|, 0
  {
    if s == [] || IsReturn(s[0]) then None
    else if s[0] != '\"' then Cons([s[0]], VbInside(s[1..]))
    else if |s| > 1 && s[1] == '\"' then Cons("\"", VbInside(s[2..]))
    else VbAfter(s[1..])
  }

  function VbAfter(s: string): Read
    decreases |s|, 1
  {
    if s != [] && s[0] == '&' then VbTerm(s[1..]) else Some(("", s))
  }

  function Inside(lang: Lang, s: string): Read {
    if lang == VBScript then VbInside(s) else JsLiteral(s)
  }

  function Expression(lang: Lang, s: string): Read {
    if lang == VBScript then VbTerm(s)
    else if s != [] && s[0] == '\"' then JsLiteral(s[1..]) else None
  }

  // ---------- The page's own code ----------

  /** What a character of code belongs to; Name is an identifier in brackets. */
  datatype Mode = Ground | Literal(quote: char) | Name | LineComment | BlockComment | Broken

  predicate IsWordChar(c: char) {
    IsDigit(c) || c == '_' || 'a' <= ToLower(c) <= 'z'
  }

  /** The length of the word that s begins with. */
  function WordLength(s: string): (n: nat)
    ensures n <= |s| && (s != [] && IsWordChar(s[0]) ==> n > 0)
  {
    if s != [] && IsWordChar(s[0]) then 1 + WordLength(s[1..]) else 0
  }

  /** The word begins a VBScript comment; no variable may have this name, so it does not matter where it stands. */
  predicate IsRem(word: string) {
    |word| == 3 && StartsNoCase(word, "rem")
  }

  /**
    Quotes and comments in code; a string literal that its line does not close is Broken.  Only a member
    behind a dot, or a name in brackets, may be called Rem.
  */
  function Scan(lang: Lang, mode: Mode, s: string): Mode
    decreases |s|, 1
  {
    if s == [] then mode
    else
      match mode
      case Broken => Broken
      case LineComment => Scan(lang, if IsReturn(s[0]) then Ground else LineComment, s[1..])
      case BlockComment =>
        if |s| >= 2 && s[0] == '*' && s[1] == '/' then Scan(lang, Ground, s[2..]) else Scan(lang, BlockComment, s[1..])
      case Name => if IsReturn(s[0]) then Broken else Scan(lang, if s[0] == ']' then Ground else Name, s[1..])
      case Literal(quote) =>
        if IsReturn(s[0]) then Broken
        else if lang == JScript && s[0] == '\\' && |s| >= 2 then Scan(lang, mode, s[2..])
        else Scan(lang, if s[0] == quote then Ground else mode, s[1..])
      case Ground => if lang == VBScript then ScanVb(s) else ScanJs(s)
  }

  function ScanVb(s: string): Mode
    requires s != []
    decreases |s|, 0
  {
    if s[0] == '\"' then Scan(VBScript, Literal(s[0]), s[1..])
    else if s[0] == '\'' then Scan(VBScript, LineComment, s[1..])
    else if s[0] == '[' then Scan(VBScript, Name, s[1..])
    else if s[0] == '.' then Scan(VBScript, Ground, s[1 + WordLength(s[1..])..])
    else if IsWordChar(s[0]) then
      var n := WordLength(s);
      Scan(VBScript, if IsRem(s[..n]) then LineComment else Ground, s[n..])
    else Scan(VBScript, Ground, s[1..])
  }

  function ScanJs(s: string): Mode
    requires s != []
    decreases |s|, 0
  {
    if s[0] == '\"' || s[0] == '\'' then Scan(JScript, Literal(s[0]), s[1..])
    else if |s| >= 2 && s[0] == '/' && s[1] == '/' then Scan(JScript, LineComment, s[2..])
    else if |s| >= 2 && s[0] == '/' && s[1] == '*' then Scan(JScript, BlockComment, s[2..])
    else Scan(JScript, Ground, s[1..])
  }

  /** What is behind a line comment: the text from its line end on, or nothing. */
  function SkipLine(s: string): (r: string)
    ensures r != "" ==> IsReturn(r[0])
    ensures |r| <= |s|
  {
    if s == [] || IsReturn(s[0]) then s else SkipLine(s[1..])
  }

  // ---------- Statements ----------

  /** Compiler-written text from `state` on: what it writes, and the state behind it. */
  function RunText(lang: Lang, state: State, s: string): Option<(string, State)>
    decreases |s|, 0
  {
    match state
    case AfterExpression => if |s| >= 2 && s[0] == ')' && s[1] == Separator(lang) then RunIdle(lang, s[2..]) else None
    case AfterCode => if s != [] && (IsReturn(s[0]) || s[0] == Separator(lang)) then RunIdle(lang, s[1..]) else None
    case InWrite => None
    case Commented => if SkipLine(s) == "" then Some(("", Commented)) else RunIdle(lang, SkipLine(s))
    case Idle => if s == [] then Some(("", Idle)) else RunIdle(lang, s)
  }

  function RunIdle(lang: Lang, s: string): Option<(string, State)>
    decreases |s|
  {
    if s == [] then Some(("", Idle))
    else if IsSpace(s[0]) || s[0] == Separator(lang) then RunIdle(lang, s[1..])
    else if !StartsWith(s, WRITE) then None
    else if |s| == |WRITE| then Some(("", InWrite))
    else
      match Expression(lang, s[|WRITE|..])
      case None => None
      case Some((v, rest)) =>
        if |rest| >= 2 && rest[0] == ')' && rest[1] == Separator(lang) && |rest| < |s| then
          Prepend(v, RunIdle(lang, rest[2..]))
        else None
  }

  function Prepend(v: string, r: Option<(string, State)>): Option<(string, State)> {
    match r case None => None case Some((w, state)) => Some((v + w, state))
  }

  function Then(e: seq<Event>, r: Option<(seq<Event>, State)>): Option<(seq<Event>, State)> {
    match r case None => None case Some((more, state)) => Some((e + more, state))
  }

  /** Code from the page: what it does, and the state behind it; None for code that is not closed in itself. */
  function CopiedDoes(lang: Lang, state: State, text: string): Option<(seq<Event>, State)> {
    match state
    case Idle => (
      match Scan(lang, Ground, text)
      case Ground => Some(([Do(text)], AfterCode))
      case LineComment => Some(([Do(text)], Commented))
      case _ => None)
    case InWrite => if Scan(lang, Ground, text).Ground? then Some(([Value(text)], AfterExpression)) else None
    case Commented => if SkipLine(text) == "" then Some(([], Commented)) else None
    case _ => None
  }

  function Run(lang: Lang, state: State, pieces: seq<Piece>): Option<(seq<Event>, State)>
    decreases |pieces|
  {
    if pieces == [] then Some(([], state))
    else
      match pieces[0]
      case Emitted(text) => (
        match RunText(lang, state, text)
        case None => None
        case Some((out, state')) => Then(if out == "" then [] else [Write(out)], Run(lang, state', pieces[1..])))
      case Copied(text) =>
        match CopiedDoes(lang, state, text)
        case None => None
        case Some((events, state')) => Then(events, Run(lang, state', pieces[1..]))
  }

  // ---------- What the page means ----------

  function CrlfChar(c: char): string {
    if c == '\r' then "" else if c == '\n' then "\r\n" else [c]
  }

  /** Text as the client gets it: every line ends in CR LF. */
  function Crlf(text: string): string {
    if text == [] then "" else CrlfChar(text[0]) + Crlf(text[1..])
  }

  function Code(inner: string): string {
    inner[LeadingSpace(inner)..]
  }

  function Meaning(seg: Segment): seq<Event> {
    match seg
    case Plain(text) => if Crlf(text) == "" then [] else [Write(Crlf(text))]
    case Block(inner, _) =>
      var code := Code(inner);
      if code != [] && code[0] == '@' then []
      else if code != [] && code[0] == '=' then [Value(code[1..])]
      else [Do(code)]
  }

  function Meanings(segs: seq<Segment>): seq<Event> {
    if segs == [] then [] else Meaning(segs[0]) + Meanings(segs[1..])
  }

  // ---------- Comments that stay open ----------

  predicate IsDirective(code: string) { code != [] && code[0] == '@' }

  predicate IsExpression(code: string) { code != [] && code[0] == '=' }

  /** A comment open in front of the block is still open in front of its code. */
  predicate OpenInside(open: bool, inner: string) {
    open && Returns(inner[..LeadingSpace(inner)]) == ""
  }

  /**
    No comment takes in what the segment is there for: text and code come behind the end of the line
    of an open comment, an expression leaves no comment open, and code at most one that ends with its
    line; no string literal is left open.
  */
  predicate Sound(lang: Lang, open: bool, seg: Segment) {
    match seg
    case Plain(text) => open ==> Crlf(text) == ""
    case Block(inner, _) =>
      var code := Code(inner);
      IsDirective(code) ||
      (!OpenInside(open, inner) &&
       if IsExpression(code) then Scan(lang, Ground, code[1..]).Ground?
       else Scan(lang, Ground, code).Ground? || Scan(lang, Ground, code).LineComment?)
  }

  /** Whether a comment is open behind the segment. */
  predicate LeavesOpen(lang: Lang, open: bool, seg: Segment) {
    match seg
    case Plain(text) => open && LineFeeds(text) == 0
    case Block(inner, after) =>
      var code := Code(inner);
      Returns(after) == "" &&
      if IsDirective(code) then OpenInside(open, inner) && Returns(code) == ""
      else OpenInside(open, inner) || (!IsExpression(code) && Scan(lang, Ground, code).LineComment?)
  }

  /** The same for all segments, from the first on. */
  predicate AllSound(lang: Lang, open: bool, segs: seq<Segment>)
    decreases |segs|
  {
    segs == [] || (Sound(lang, open, segs[0]) && AllSound(lang, LeavesOpen(lang, open, segs[0]), segs[1..]))
  }

  // ---------- The script in pieces ----------

  function SegmentPieces(lang: Lang, seg: Segment): seq<Piece> {
    match seg
    case Plain(text) => [Emitted(PlainScript(lang, text))]
    case Block(inner, after) =>
      var feeds, code := Returns(inner[..LeadingSpace(inner)]), Code(inner);
      if code != [] && code[0] == '@' then [Emitted(feeds + (Returns(code) + Ending(lang, after)))]
      else if code != [] && code[0] == '=' then
        [Emitted(feeds + EXP_BEGIN), Copied(code[1..]), Emitted(ExpEnd(lang) + Ending(lang, after))]
      else [Emitted(feeds), Copied(code), Emitted(Ending(lang, after))]
  }

  function AllPieces(lang: Lang, segs: seq<Segment>): seq<Piece> {
    if segs == [] then [] else SegmentPieces(lang, segs[0]) + AllPieces(lang, segs[1..])
  }

  function Flatten(pieces: seq<Piece>): string {
    if pieces == [] then "" else pieces[0].text + Flatten(pieces[1..])
  }

  lemma {:induction false} FlattenAppend(a: seq<Piece>, b: seq<Piece>)
    ensures Flatten(a + b) == Flatten(a) + Flatten(b)
  {
    if a == [] {
      assert a + b == b;
    } else {
      assert (a + b)[1..] == a[1..] + b;
      FlattenAppend(a[1..], b);
    }
  }

  lemma FlattenOne(p: Piece)
    ensures Flatten([p]) == p.text
  {
    assert [p][1..] == [];
  }

  lemma SegmentPiecesAreScript(lang: Lang, seg: Segment)
    ensures Flatten(SegmentPieces(lang, seg)) == SegmentScript(lang, seg)
  {
    hide Returns, LeadingSpace, PlainScript, Ending, ExpEnd, Flatten;
    if seg.Plain? {
      FlattenOne(Emitted(PlainScript(lang, seg.text)));
    } else {
      var n := LeadingSpace(seg.inner);
      var feeds, code, end := Returns(seg.inner[..n]), Code(seg.inner), Ending(lang, seg.after);
      Regroup(feeds, CodeScript(lang, code), end);
      if code != [] && code[0] == '@' {
        FlattenOne(Emitted(feeds + (Returns(code) + end)));
      } else if code != [] && code[0] == '=' {
        FlattenThree(Emitted(feeds + EXP_BEGIN), Copied(code[1..]), Emitted(ExpEnd(lang) + end));
        Regroup(feeds, EXP_BEGIN, code[1..] + (ExpEnd(lang) + end));
        Regroup(EXP_BEGIN + code[1..], ExpEnd(lang), end);
        Regroup(EXP_BEGIN, code[1..], ExpEnd(lang) + end);
      } else {
        FlattenThree(Emitted(feeds), Copied(code), Emitted(end));
      }
    }
  }

  lemma FlattenThree(p: Piece, q: Piece, r: Piece)
    ensures Flatten([p, q, r]) == p.text + (q.text + r.text)
  {
    assert [p, q, r][1..] == [q, r] && [q, r][1..] == [r] && [r][1..] == [];
    FlattenOne(r);
    assert Flatten([q, r]) == q.text + Flatten([r]);
    assert Flatten([p, q, r]) == p.text + Flatten([q, r]);
  }

  lemma {:induction false} PiecesAreScript(lang: Lang, segs: seq<Segment>)
    ensures Flatten(AllPieces(lang, segs)) == SegmentScripts(lang, segs)
  {
    hide SegmentPieces, SegmentScript;
    if segs != [] {
      SegmentPiecesAreScript(lang, segs[0]);
      PiecesAreScript(lang, segs[1..]);
      FlattenAppend(SegmentPieces(lang, segs[0]), AllPieces(lang, segs[1..]));
    }
  }

  // ---------- Literals are read as they were meant ----------

  lemma ConsTwice(v: string, w: string, r: Read)
    ensures Cons(v, Cons(w, r)) == Cons(v + w, r)
  {
    if r.Some? {
      Regroup(v, w, r.value.0);
    }
  }

  lemma ConsNothing(r: Read)
    ensures Cons("", r) == r
  {
    if r.Some? {
      assert "" + r.value.0 == r.value.0;
    }
  }

  lemma VbChr(d: char, e: char, more: string)
    requires IsDigit(d) && IsDigit(e)
    ensures VbAfter("&chr(" + [d, e] + ")" + more) == Cons([Chr(d, e)], VbAfter(more))
  {
    var s := "&chr(" + [d, e] + ")" + more;
    var t := s[1..];
    assert t[0] == 'c' && t[1] == 'h' && t[2] == 'r' && t[3] == '(' && t[4] == d && t[5] == e && t[6] == ')';
    assert t[7..] == more;
  }

  /** Out of a literal and into another one. */
  lemma VbReopen(more: string)
    ensures VbAfter("&\"" + more) == VbInside(more)
  {
    var s := "&\"" + more;
    assert s[1..] == "\"" + more && s[1..][1..] == more;
  }

  lemma VbLeave(more: string)
    requires more != [] && more[0] != '\"'
    ensures VbInside("\"" + more) == VbAfter(more)
  {
    assert ("\"" + more)[1..] == more;
  }

  lemma VbQuote(more: string)
    ensures VbInside(VB_DOUBLE_QUOTE_REPLACEMENT + more) == Cons("\"", VbInside(more))
  {
    hide VbInside, VbAfter;
    var close := "&\"" + more;
    var call := "&chr(" + ['3', '4'] + ")" + close;
    assert VB_DOUBLE_QUOTE_REPLACEMENT + more == "\"" + call;
    VbLeave(call);
    VbChr('3', '4', close);
    VbReopen(more);
    assert Chr('3', '4') == '\"';
  }

  lemma VbNewLine(more: string)
    ensures VbInside(VB_NEWLINE + more) == Cons("\r\n", VbInside(more))
  {
    hide VbInside, VbAfter;
    var close := "&\"" + more;
    var lf := "&chr(" + ['1', '0'] + ")" + close;
    var cr := "&chr(" + ['1', '3'] + ")" + lf;
    assert VB_NEWLINE + more == "\"" + cr;
    VbLeave(cr);
    VbChr('1', '3', lf);
    VbChr('1', '0', close);
    VbReopen(more);
    assert Chr('1', '3') == '\r' && Chr('1', '0') == '\n';
    ConsTwice("\r", "\n", VbInside(more));
    assert "\r" + "\n" == "\r\n";
  }

  /** A character, escaped, reads as what the client is to get. */
  lemma CharMeans(lang: Lang, c: char, more: string)
    ensures Inside(lang, Escape(lang, c) + more) == Cons(CrlfChar(c), Inside(lang, more))
  {
    var s := Escape(lang, c) + more;
    if lang == VBScript {
      if c == '\"' {
        VbQuote(more);
      } else if c == '\n' {
        VbNewLine(more);
      } else if c == '\r' {
        assert s == more;
        ConsNothing(Inside(lang, more));
      } else {
        assert s[1..] == more;
      }
    } else {
      JsCharMeans(c, more);
    }
  }

  lemma JsCharMeans(c: char, more: string)
    ensures JsLiteral(Escape(JScript, c) + more) == Cons(CrlfChar(c), JsLiteral(more))
  {
    var s := Escape(JScript, c) + more;
    if c == '\"' || c == '\\' {
      assert s[2..] == more && s[0] == '\\' && s[1] == c;
    } else if c == '\n' {
      assert s[0] == '\\' && s[1] == 'r' && s[2] == '\\' && s[3] == 'n' && s[2..][2..] == more;
      assert JsLiteral(s[2..]) == Cons("\n", JsLiteral(more));
      ConsTwice("\r", "\n", JsLiteral(more));
      assert "\r" + "\n" == "\r\n";
    } else if c == '\r' {
      assert s == more;
      ConsNothing(JsLiteral(more));
    } else {
      assert s[1..] == more;
    }
  }

  lemma {:induction false} LiteralMeans(lang: Lang, text: string, more: string)
    requires more != [] && more[0] == ')'
    ensures Inside(lang, EscapeAll(lang, text) + ("\"" + more)) == Some((Crlf(text), more))
  {
    hide Escape, VbAfter;
    if text == [] {
      assert "" + ("\"" + more) == "\"" + more;
      LiteralEnds(lang, more);
    } else {
      var rest := EscapeAll(lang, text[1..]) + ("\"" + more);
      Regroup(Escape(lang, text[0]), EscapeAll(lang, text[1..]), "\"" + more);
      CharMeans(lang, text[0], rest);
      LiteralMeans(lang, text[1..], more);
    }
  }

  lemma LiteralEnds(lang: Lang, more: string)
    requires more != [] && more[0] == ')'
    ensures Inside(lang, "\"" + more) == Some(("", more))
  {
    var s := "\"" + more;
    assert s[1..] == more && s[0] == '\"' && s[1] == ')';
    assert VbAfter(more) == Some(("", more));
  }

  // ---------- Statements do what was meant ----------

  /** Text that does nothing: spaces, line ends, separators. */
  predicate Nothing(lang: Lang, pad: string) {
    forall c :: c in pad ==> IsSpace(c) || c == Separator(lang)
  }

  lemma {:induction false} IdleSkips(lang: Lang, pad: string, more: string)
    requires Nothing(lang, pad)
    ensures RunIdle(lang, pad + more) == RunIdle(lang, more)
  {
    if pad == [] {
      assert pad + more == more;
    } else {
      assert (pad + more)[1..] == pad[1..] + more;
      IdleSkips(lang, pad[1..], more);
    }
  }

  lemma NothingRuns(lang: Lang, pad: string)
    requires Nothing(lang, pad)
    ensures RunIdle(lang, pad) == Some(("", Idle))
  {
    IdleSkips(lang, pad, "");
    assert pad + "" == pad;
  }

  lemma PrependTwice(v: string, w: string, r: Option<(string, State)>)
    ensures Prepend(v, Prepend(w, r)) == Prepend(v + w, r)
  {
    if r.Some? {
      Regroup(v, w, r.value.0);
    }
  }

  /** One statement whose argument reads as v. */
  lemma WriteRuns(lang: Lang, arg: string, v: string, more: string)
    requires arg != [] && Expression(lang, arg) == Some((v, [')', Separator(lang)] + more)) && |arg| >= |more| + 2
    ensures RunIdle(lang, " Response.Write(" + arg) == Prepend(v, RunIdle(lang, more))
  {
    hide Expression, RunIdle;
    var s := WRITE + arg;
    IdleSkips(lang, " ", s);
    Regroup(" ", WRITE, arg);
    assert " " + WRITE == " Response.Write(";
    WriteIdle(lang, arg, v, more);
  }

  lemma WriteIdle(lang: Lang, arg: string, v: string, more: string)
    requires arg != [] && Expression(lang, arg) == Some((v, [')', Separator(lang)] + more)) && |arg| >= |more| + 2
    ensures RunIdle(lang, WRITE + arg) == Prepend(v, RunIdle(lang, more))
  {
    hide Expression, Prepend;
    var s := WRITE + arg;
    assert s[..|WRITE|] == WRITE && s[|WRITE|..] == arg;
    var rest := [')', Separator(lang)] + more;
    assert rest[2..] == more;
    assert !IsSpace(s[0]) && s[0] != Separator(lang);
  }

  lemma StatementRuns(lang: Lang, text: string, more: string)
    ensures RunIdle(lang, Statement(lang, text) + more) == Prepend(Crlf(text), RunIdle(lang, more))
  {
    hide RunIdle, Inside, EscapeAll;
    var esc := EscapeAll(lang, text);
    var tail := "    " + more;
    var end := [')', Separator(lang)] + tail;
    assert end[0] == ')';
    LiteralMeans(lang, text, end);
    var x := esc + ("\"" + end);
    var arg := "\"" + x;
    assert arg[1..] == x;
    ExpressionOpens(lang, arg);
    WriteRuns(lang, arg, Crlf(text), tail);
    IdleSkips(lang, "    ", more);
    StatementText(lang, text, more);
  }

  lemma ExpressionOpens(lang: Lang, arg: string)
    requires arg != [] && arg[0] == '\"'
    ensures Expression(lang, arg) == Inside(lang, arg[1..])
  {
  }

  lemma StatementText(lang: Lang, text: string, more: string)
    ensures Statement(lang, text) + more ==
      " Response.Write(" + ("\"" + (EscapeAll(lang, text) + ("\"" + ([')', Separator(lang)] + ("    " + more)))))
  {
    hide EscapeAll;
    var esc := EscapeAll(lang, text);
    assert HTML_BEGIN == " Response.Write(" + "\"";
    assert HtmlEnd(lang) + more == "\"" + ([')', Separator(lang)] + ("    " + more));
    Regroup(HTML_BEGIN + esc, HtmlEnd(lang), more);
    Regroup(HTML_BEGIN, esc, HtmlEnd(lang) + more);
    Regroup(" Response.Write(", "\"", esc + (HtmlEnd(lang) + more));
  }

  lemma {:induction false} CrlfAppend(a: string, b: string)
    ensures Crlf(a + b) == Crlf(a) + Crlf(b)
  {
    hide CrlfChar;
    if a == [] {
      assert a + b == b;
    } else {
      assert (a + b)[1..] == a[1..] + b;
      CrlfAppend(a[1..], b);
      Regroup(CrlfChar(a[0]), Crlf(a[1..]), Crlf(b));
    }
  }

  lemma {:induction false} StatementsRun(lang: Lang, text: string, more: string)
    ensures RunIdle(lang, Statements(lang, text) + more) == Prepend(Crlf(text), RunIdle(lang, more))
    decreases |text|
  {
    hide RunIdle, Statement, StatementLength, Crlf;
    if text == [] {
      assert Statements(lang, text) + more == more;
      assert Crlf(text) == "" by { CrlfOfNone(); }
      if RunIdle(lang, more).Some? {
        assert "" + RunIdle(lang, more).value.0 == RunIdle(lang, more).value.0;
      }
    } else {
      var n := StatementLength(lang, text, |HTML_BEGIN|);
      var first, rest := text[..n], text[n..];
      Regroup(Statement(lang, first), Statements(lang, rest), more);
      StatementRuns(lang, first, Statements(lang, rest) + more);
      StatementsRun(lang, rest, more);
      PrependTwice(Crlf(first), Crlf(rest), RunIdle(lang, more));
      CrlfAppend(first, rest);
      assert first + rest == text;
    }
  }

  lemma CrlfOfNone()
    ensures Crlf("") == ""
  {
  }

  lemma {:induction false} CrlfsDoNothing(lang: Lang, n: nat)
    ensures Nothing(lang, Crlfs(n))
  {
    if n > 0 {
      CrlfsDoNothing(lang, n - 1);
    }
  }

  lemma {:induction false} ReturnsDoNothing(lang: Lang, s: string)
    ensures Nothing(lang, Returns(s)) && forall c :: c in Returns(s) ==> IsReturn(c)
  {
    if s != [] {
      ReturnsDoNothing(lang, s[1..]);
    }
  }

  lemma PlainRuns(lang: Lang, text: string)
    ensures RunText(lang, Idle, PlainScript(lang, text)) == Some((Crlf(text), Idle))
  {
    hide RunIdle, Statements, Crlf;
    StatementsRun(lang, text, Crlfs(LineFeeds(text)));
    CrlfsDoNothing(lang, LineFeeds(text));
    NothingRuns(lang, Crlfs(LineFeeds(text)));
    assert Crlf(text) + "" == Crlf(text);
    IdleIsIdle(lang, PlainScript(lang, text));
  }

  lemma IdleIsIdle(lang: Lang, s: string)
    ensures RunText(lang, Idle, s) == RunIdle(lang, s)
  {
  }

  lemma EndingDoesNothing(lang: Lang, after: string)
    ensures Nothing(lang, Ending(lang, after))
    ensures RunText(lang, AfterCode, Ending(lang, after)) == Some(("", Idle))
    ensures RunText(lang, AfterExpression, ExpEnd(lang) + Ending(lang, after)) == Some(("", Idle))
  {
    hide RunIdle;
    ReturnsDoNothing(lang, after);
    var end := Ending(lang, after);
    assert end[0] in end;
    assert Nothing(lang, end[1..]);
    NothingRuns(lang, end[1..]);
    var s := ExpEnd(lang) + end;
    assert s[2..] == "  " + end;
    NothingRuns(lang, s[2..]);
  }

  lemma ExpressionBegins(lang: Lang, pad: string)
    requires Nothing(lang, pad)
    ensures RunText(lang, Idle, pad + EXP_BEGIN) == Some(("", InWrite))
  {
    IdleIsIdle(lang, pad + EXP_BEGIN);
    IdleSkips(lang, pad, EXP_BEGIN);
    IdleSkips(lang, " ", WRITE);
    assert EXP_BEGIN == " " + WRITE;
    assert WRITE[..|WRITE|] == WRITE;
    assert !IsSpace(WRITE[0]) && WRITE[0] != Separator(lang);
  }

  lemma RunEmitted(lang: Lang, state: State, text: string, more: seq<Piece>)
    ensures var r := RunText(lang, state, text);
      Run(lang, state, [Emitted(text)] + more) == if r.None? then None
        else Then(if r.value.0 == "" then [] else [Write(r.value.0)], Run(lang, r.value.1, more))
  {
    assert ([Emitted(text)] + more)[1..] == more;
  }

  lemma RunCopied(lang: Lang, state: State, text: string, more: seq<Piece>)
    ensures var r := CopiedDoes(lang, state, text);
      Run(lang, state, [Copied(text)] + more) == if r.None? then None else Then(r.value.0, Run(lang, r.value.1, more))
  {
    hide CopiedDoes;
    assert ([Copied(text)] + more)[1..] == more;
  }

  lemma ThenNothing(r: Option<(seq<Event>, State)>)
    ensures Then([], r) == r
  {
    if r.Some? {
      assert [] + r.value.0 == r.value.0;
    }
  }

  lemma {:induction false} SkipLineOf(a: string, b: string)
    requires forall c :: c in a ==> !IsReturn(c)
    ensures SkipLine(a + b) == SkipLine(b)
  {
    if a == [] {
      assert a + b == b;
    } else {
      assert (a + b)[1..] == a[1..] + b;
      SkipLineOf(a[1..], b);
    }
  }

  lemma {:induction false} StatementsOnOneLine(lang: Lang, text: string)
    ensures forall c :: c in Statements(lang, text) ==> !IsReturn(c)
    decreases |text|
  {
    hide EscapeAll, StatementLength;
    if text != [] {
      var n := StatementLength(lang, text, |HTML_BEGIN|);
      EscapedOnOneLine(lang, text[..n]);
      StatementsOnOneLine(lang, text[n..]);
    }
  }

  lemma {:induction false} EscapedOnOneLine(lang: Lang, text: string)
    ensures forall c :: c in EscapeAll(lang, text) ==> !IsReturn(c)
  {
    if text != [] {
      EscapedOnOneLine(lang, text[1..]);
    }
  }

  /** Compiler-written text that does nothing ends a comment if it has a line end. */
  lemma {:induction false} CommentEnds(lang: Lang, s: string)
    requires Nothing(lang, s)
    ensures RunText(lang, Commented, s) == Some(("", Between(Returns(s) == "")))
  {
    if s == [] {
    } else if IsReturn(s[0]) {
      NothingRuns(lang, s);
    } else {
      CommentEnds(lang, s[1..]);
      assert "" + Returns(s[1..]) == Returns(s[1..]);
    }
  }

  /** The state between two segments. */
  function Between(open: bool): State { if open then Commented else Idle }

  lemma {:induction false} ReturnsTwice(s: string)
    ensures Returns(Returns(s)) == Returns(s)
  {
    if s != [] {
      ReturnsTwice(s[1..]);
      if IsReturn(s[0]) {
        assert Returns(s)[1..] == Returns(s[1..]);
      } else {
        assert "" + Returns(s[1..]) == Returns(s[1..]);
      }
    }
  }

  lemma ReturnsOfEnding(lang: Lang, after: string)
    ensures Returns(Ending(lang, after)) == Returns(after)
  {
    ReturnsTwice(after);
    assert [Separator(lang)][1..] == "";
  }

  /** In a comment, an ending ends it or not. */
  lemma EndingInComment(lang: Lang, after: string)
    ensures RunText(lang, Commented, Ending(lang, after)) == Some(("", Between(Returns(after) == "")))
    ensures RunText(lang, Commented, ExpEnd(lang) + Ending(lang, after)) == Some(("", Between(Returns(after) == "")))
  {
    hide RunIdle, Ending;
    EndingDoesNothing(lang, after);
    ReturnsOfEnding(lang, after);
    CommentEnds(lang, Ending(lang, after));
    SkipLineOf(ExpEnd(lang), Ending(lang, after));
  }

  /** Line ends in front of code, in a comment or not. */
  lemma FeedsRun(lang: Lang, open: bool, feeds: string)
    requires Nothing(lang, feeds) && Returns(feeds) == feeds
    ensures RunText(lang, Between(open), feeds) == Some(("", Between(open && feeds == "")))
    ensures RunText(lang, Between(open), feeds + EXP_BEGIN)
      == Some(("", if open && feeds == "" then Commented else InWrite))
  {
    hide RunIdle;
    if open {
      CommentEnds(lang, feeds);
      if feeds == "" {
        SkipLineOf(EXP_BEGIN, "");
        assert "" + EXP_BEGIN == EXP_BEGIN == EXP_BEGIN + "";
      } else {
        ExpressionBegins(lang, feeds);
        FirstReturn(feeds);
        assert SkipLine(feeds + EXP_BEGIN) == feeds + EXP_BEGIN;
        IdleIsIdle(lang, feeds + EXP_BEGIN);
      }
    } else {
      NothingRuns(lang, feeds);
      IdleIsIdle(lang, feeds);
      ExpressionBegins(lang, feeds);
    }
  }

  lemma FirstReturn(feeds: string)
    requires Returns(feeds) == feeds && feeds != ""
    ensures IsReturn(feeds[0])
  {
    assert feeds[0] in feeds;
    AllReturns(feeds);
  }

  lemma {:induction false} AllReturns(s: string)
    ensures forall c :: c in Returns(s) ==> IsReturn(c)
  {
    if s != [] {
      AllReturns(s[1..]);
    }
  }

  lemma PlainInComment(lang: Lang, text: string)
    ensures RunText(lang, Commented, PlainScript(lang, text)) == Some(("", Between(LineFeeds(text) == 0)))
  {
    hide RunIdle, Statements, LineFeeds;
    var n := LineFeeds(text);
    StatementsOnOneLine(lang, text);
    SkipLineOf(Statements(lang, text), Crlfs(n));
    CrlfsDoNothing(lang, n);
    NothingRuns(lang, Crlfs(n));
  }

  /**
    What becomes of a segment: it does what it is meant to, or it is taken in by a comment, or the
    script is not read.
  */
  predicate Becomes(lang: Lang, open: bool, seg: Segment, r: Option<(seq<Event>, State)>, more: seq<Piece>) {
    if Sound(lang, open, seg) then r == Then(Meaning(seg), Run(lang, Between(LeavesOpen(lang, open, seg)), more))
    else Meaning(seg) != [] && (r == None || r == Run(lang, Between(LeavesOpen(lang, open, seg)), more))
  }

  lemma PlainBecomes(lang: Lang, open: bool, text: string, more: seq<Piece>)
    ensures Becomes(lang, open, Plain(text), Run(lang, Between(open), SegmentPieces(lang, Plain(text)) + more), more)
  {
    hide Run, RunText, PlainScript, Crlf, Then, LineFeeds;
    PlainRuns(lang, text);
    PlainInComment(lang, text);
    RunEmitted(lang, Between(open), PlainScript(lang, text), more);
    ThenNothing(Run(lang, Between(LeavesOpen(lang, open, Plain(text))), more));
  }

  lemma DirectiveBecomes(lang: Lang, open: bool, inner: string, after: string, more: seq<Piece>)
    requires IsDirective(Code(inner))
    ensures var seg := Block(inner, after);
      Becomes(lang, open, seg, Run(lang, Between(open), SegmentPieces(lang, seg) + more), more)
  {
    hide Run, RunText, Returns, LeadingSpace, Ending, Then, Nothing;
    var feeds, code, end := Returns(inner[..LeadingSpace(inner)]), Code(inner), Ending(lang, after);
    var s := feeds + (Returns(code) + end);
    ReturnsDoNothing(lang, inner[..LeadingSpace(inner)]);
    ReturnsDoNothing(lang, code);
    EndingDoesNothing(lang, after);
    AllNothing(lang, feeds, Returns(code), end);
    NothingRuns(lang, s);
    IdleIsIdle(lang, s);
    CommentEnds(lang, s);
    ReturnsAppend(feeds, Returns(code) + end);
    ReturnsAppend(Returns(code), end);
    ReturnsTwice(inner[..LeadingSpace(inner)]);
    ReturnsTwice(code);
    ReturnsOfEnding(lang, after);
    RunEmitted(lang, Between(open), s, more);
    ThenNothing(Run(lang, Between(LeavesOpen(lang, open, Block(inner, after))), more));
  }

  lemma ExpressionBecomes(lang: Lang, open: bool, inner: string, after: string, more: seq<Piece>)
    requires IsExpression(Code(inner))
    ensures var seg := Block(inner, after);
      Becomes(lang, open, seg, Run(lang, Between(open), SegmentPieces(lang, seg) + more), more)
  {
    hide Run, RunText, Returns, LeadingSpace, Ending, ExpEnd, Then, Nothing, Scan, SkipLine;
    var feeds, code, end := Returns(inner[..LeadingSpace(inner)]), Code(inner), Ending(lang, after);
    var inside := OpenInside(open, inner);
    var state := if inside then Commented else InWrite;
    var last := [Emitted(ExpEnd(lang) + end)] + more;
    ReturnsDoNothing(lang, inner[..LeadingSpace(inner)]);
    ReturnsTwice(inner[..LeadingSpace(inner)]);
    EndingDoesNothing(lang, after);
    EndingInComment(lang, after);
    FeedsRun(lang, open, feeds);
    RunEmitted(lang, Between(open), feeds + EXP_BEGIN, [Copied(code[1..])] + last);
    ThenNothing(Run(lang, state, [Copied(code[1..])] + last));
    RunCopied(lang, state, code[1..], last);
    RunEmitted(lang, if inside then Commented else AfterExpression, ExpEnd(lang) + end, more);
    ThenNothing(Run(lang, Between(inside && Returns(after) == ""), more));
    ThenNothing(Run(lang, Commented, last));
    assert SegmentPieces(lang, Block(inner, after)) + more
      == [Emitted(feeds + EXP_BEGIN)] + ([Copied(code[1..])] + last);
  }

  lemma CodeBecomes(lang: Lang, open: bool, inner: string, after: string, more: seq<Piece>)
    requires !IsDirective(Code(inner)) && !IsExpression(Code(inner))
    ensures var seg := Block(inner, after);
      Becomes(lang, open, seg, Run(lang, Between(open), SegmentPieces(lang, seg) + more), more)
  {
    hide Run, RunText, Returns, LeadingSpace, Ending, Then, Nothing, Scan, SkipLine;
    var feeds, code, end := Returns(inner[..LeadingSpace(inner)]), Code(inner), Ending(lang, after);
    var inside, commented := OpenInside(open, inner), Scan(lang, Ground, code).LineComment?;
    var last := [Emitted(end)] + more;
    ReturnsDoNothing(lang, inner[..LeadingSpace(inner)]);
    ReturnsTwice(inner[..LeadingSpace(inner)]);
    EndingDoesNothing(lang, after);
    EndingInComment(lang, after);
    FeedsRun(lang, open, feeds);
    RunEmitted(lang, Between(open), feeds, [Copied(code)] + last);
    ThenNothing(Run(lang, Between(inside), [Copied(code)] + last));
    RunCopied(lang, Between(inside), code, last);
    RunEmitted(lang, if inside || commented then Commented else AfterCode, end, more);
    ThenNothing(Run(lang, Between((inside || commented) && Returns(after) == ""), more));
    ThenNothing(Run(lang, Commented, last));
    assert SegmentPieces(lang, Block(inner, after)) + more == [Emitted(feeds)] + ([Copied(code)] + last);
  }

  lemma SegmentRuns(lang: Lang, open: bool, seg: Segment, more: seq<Piece>)
    ensures Becomes(lang, open, seg, Run(lang, Between(open), SegmentPieces(lang, seg) + more), more)
  {
    hide Becomes, Run, SegmentPieces, LeadingSpace;
    match seg
    case Plain(text) => PlainBecomes(lang, open, text, more);
    case Block(inner, after) =>
      if IsDirective(Code(inner)) {
        DirectiveBecomes(lang, open, inner, after, more);
      } else if IsExpression(Code(inner)) {
        ExpressionBecomes(lang, open, inner, after, more);
      } else {
        CodeBecomes(lang, open, inner, after, more);
      }
  }

  lemma AllNothing(lang: Lang, a: string, b: string, c: string)
    requires Nothing(lang, a) && Nothing(lang, b) && Nothing(lang, c)
    ensures Nothing(lang, a + (b + c))
  {
  }

  /** All segments do what they are meant to exactly if no comment takes one in; if one does, there are fewer events. */
  lemma {:induction false} SegmentsRun(lang: Lang, open: bool, segs: seq<Segment>)
    ensures var r := Run(lang, Between(open), AllPieces(lang, segs));
      if AllSound(lang, open, segs) then r.Some? && r.value.0 == Meanings(segs)
      else r.Some? ==> |r.value.0| < |Meanings(segs)|
    decreases |segs|
  {
    hide SegmentPieces, Meaning, Sound, LeavesOpen, Scan;
    if segs == [] {
    } else {
      SegmentRuns(lang, open, segs[0], AllPieces(lang, segs[1..]));
      SegmentsRun(lang, LeavesOpen(lang, open, segs[0]), segs[1..]);
    }
  }

  /** The pieces of the script a page compiles to. */
  function PagePieces(lang: Lang, lead: string, segs: seq<Segment>): seq<Piece> {
    [Emitted(Returns(lead))] + AllPieces(lang, segs)
  }

  /**
    Compilation preserves meaning.  The page is its leading white space and its segments; the script
    consists of compiler-written text and of the page's own code.  When it runs, the client gets, in
    the page's order, each plain text with its line ends as CR LF and each expression's value, and
    each code block is run unchanged, as a statement of its own, if and only if no comment that a
    block leaves open takes in what is behind it on its line.
  */
  lemma CompilationPreservesMeaning(lang: Lang, page: string)
    requires Compile(lang, page).Script?
    ensures var lead, body := page[..LeadingSpace(page)], page[LeadingSpace(page)..];
      && Segments(body).Some?
      && var segs := Segments(body).value;
        && lead + Sources(segs) == page
        && Flatten(PagePieces(lang, lead, segs)) == Compile(lang, page).text
        && var r := Run(lang, Idle, PagePieces(lang, lead, segs));
          r.Some? && r.value.0 == Meanings(segs) <==> AllSound(lang, false, segs)
  {
    hide Segments, Sources, SegmentScripts, Run, Flatten, AllPieces, Sizing, AllSound, Meanings;
    var lead, body := page[..LeadingSpace(page)], page[LeadingSpace(page)..];
    var segs := Segments(body).value;
    SegmentsMakeThePage(body);
    assert lead + body == page;
    PiecesAreScript(lang, segs);
    FlattenAppend([Emitted(Returns(lead))], AllPieces(lang, segs));
    FlattenOne(Emitted(Returns(lead)));
    ReturnsDoNothing(lang, lead);
    NothingRuns(lang, Returns(lead));
    IdleIsIdle(lang, Returns(lead));
    RunEmitted(lang, Idle, Returns(lead), AllPieces(lang, segs));
    SegmentsRun(lang, false, segs);
    ThenNothing(Run(lang, Idle, AllPieces(lang, segs)));
  }

  /** Code without comments and open literals is sound: the usual page keeps its meaning. */
  lemma {:induction false} ClosedIsSound(lang: Lang, segs: seq<Segment>)
    requires forall seg :: seg in segs && seg.Block? ==>
      var code := Code(seg.inner);
      IsDirective(code) || Scan(lang, Ground, if IsExpression(code) then code[1..] else code).Ground?
    ensures AllSound(lang, false, segs)
  {
    hide Scan, Code;
    if segs != [] {
      assert segs[0] in segs;
      ClosedIsSound(lang, segs[1..]);
    }
  }

  /** The code of a block that ends in a comment, by each kind of comment that ends with its line. */
  predicate Commenting(lang: Lang, code: string) {
    (lang == VBScript && (code == "x=1 'c " || code == "If a Then Rem c ")) || (lang == JScript && code == "x=1 //c ")
  }

  /**
    The pages "<% x=1 'c %>t", "<% If a Then Rem c %>t" and, in JScript, "<% x=1 //c %>t": no line end
    is behind the block, so the comment takes in the text.
  */
  lemma CommentTakesText(lang: Lang, code: string)
    requires Commenting(lang, code)
    ensures var page := "<% " + code + "%>t";
      var segs := [Block(" " + code, ""), Plain("t")];
      && Segments(page) == Some(segs) && Compile(lang, page).Script?
      && !AllSound(lang, false, segs)
      && Meanings(segs) == [Do(code), Write("t")]
      && Run(lang, Idle, PagePieces(lang, "", segs)) == Some(([Do(code)], Commented))
  {
    hide Segments, Sizing, Run, Scan, AllSound, Meanings;
    assert "<% " + code + "%>t" == "<%" + (" " + code + ("%>" + "t"));
    CodeIsCommented(lang, code);
    OneBlockPage(lang, " " + code);
    OneBlockRuns(lang, code);
    var segs := [Block(" " + code, ""), Plain("t")];
    SegmentsRun(lang, false, segs);
    PiecesOfPage(lang, segs);
  }

  lemma PiecesOfPage(lang: Lang, segs: seq<Segment>)
    ensures Run(lang, Idle, PagePieces(lang, "", segs)) == Run(lang, Idle, AllPieces(lang, segs))
  {
    hide Run, AllPieces, Returns;
    NoReturns();
    NothingRuns(lang, "");
    IdleIsIdle(lang, "");
    RunEmitted(lang, Idle, "", AllPieces(lang, segs));
    ThenNothing(Run(lang, Idle, AllPieces(lang, segs)));
  }

  lemma {:induction false} FindPairBehind(a: string, b: string)
    requires '%' !in a && NoNul(a)
    ensures FindPair(a + ("%>" + b), '%', '>') == |a|
  {
    var s := a + ("%>" + b);
    if a == [] {
      assert s[0] == '%' && s[1] == '>';
    } else {
      assert s[1..] == a[1..] + ("%>" + b);
      FindPairBehind(a[1..], b);
    }
  }

  /** A page of one block and a letter. */
  lemma OneBlockPage(lang: Lang, inner: string)
    requires inner != [] && inner[0] == ' ' && '%' !in inner && NoNul(inner)
    ensures var page := "<%" + (inner + ("%>" + "t"));
      Segments(page) == Some([Block(inner, ""), Plain("t")]) && Compile(lang, page).Script?
  {
    hide Segments, Sizing, SkipSpace, LeadingSpace;
    var page := "<%" + (inner + ("%>" + "t"));
    LeadingSpaceUnique(page, 0);
    SkipSpaceIsRest(page);
    assert page[0..] == page;
    OneBlockSegments(inner);
    OneBlockSized(lang, inner);
  }

  lemma OneBlockSegments(inner: string)
    requires '%' !in inner && NoNul(inner)
    ensures Segments("<%" + (inner + ("%>" + "t"))) == Some([Block(inner, ""), Plain("t")])
  {
    hide FindPair, LeadingSpace, SkipSpace;
    var t := inner + ("%>" + "t");
    var page := "<%" + t;
    FindPairBehind(inner, "t");
    assert page[2..] == t && t[..|inner|] == inner && page[|inner| + 4..] == "t";
    LeadingSpaceUnique("t", 0);
    assert "t"[0..] == "t" && "t"[..0] == "";
    assert TakeBlock(page) == Some((inner, "", "t"));
    LetterPage(VBScript);
    assert Segments(page) == InFront(Block(inner, ""), Segments("t"));
    assert [Block(inner, "")] + [Plain("t")] == [Block(inner, ""), Plain("t")];
  }

  lemma OneBlockSized(lang: Lang, inner: string)
    requires inner != [] && inner[0] == ' ' && '%' !in inner && NoNul(inner)
    ensures Sizing(lang, "<%" + (inner + ("%>" + "t"))).Some?
  {
    hide FindPair, ExtraOfBlock, SkipSpace;
    var t := inner + ("%>" + "t");
    var page := "<%" + t;
    FindPairBehind(inner, "t");
    assert page[2..] == t && page[|inner| + 4..] == "t";
    BlockEnd(page);
    SkipSpaceIsRest("t");
    LeadingSpaceUnique("t", 0);
    assert "t"[0..] == "t";
    LetterPage(lang);
    assert Sizing(lang, page) == Plus(ExtraOfBlock(page[2..]), Sizing(lang, "t"));
  }

  lemma LetterPage(lang: Lang)
    ensures Segments("t") == Some([Plain("t")]) && Sizing(lang, "t").Some?
  {
    assert FindPair("t", '<', '%') == 1 && "t"[..1] == "t" && "t"[1..] == "";
    assert Segments("") == Some([]) && Sizing(lang, "") == Some(0);
    assert [Plain("t")] + [] == [Plain("t")];
  }

  lemma BlockEnd(page: string)
    requires StartsBlock(page) && |page| > 2 && page[2] == ' '
    ensures FindPair(page, '%', '>') == 2 + FindPair(page[2..], '%', '>')
  {
    assert page[1..][1..] == page[2..];
    assert FindPair(page, '%', '>') == 1 + FindPair(page[1..], '%', '>');
  }

  lemma CodeIsCommented(lang: Lang, code: string)
    requires Commenting(lang, code)
    ensures Scan(lang, Ground, code) == LineComment
    ensures code != [] && !IsSpace(code[0]) && !IsDirective(code) && !IsExpression(code)
    ensures '%' !in code && NoNul(code)
  {
    hide Scan, IsDirective, IsExpression;
    CommentStays(lang, " c ");
    CommentStays(lang, "c ");
    if lang == JScript {
      JsIsCommented(code);
    } else if code == "x=1 'c " {
      QuoteIsCommented(code);
    } else {
      RemIsCommented(code);
    }
    CommentedCode(lang, code);
  }

  lemma CommentedCode(lang: Lang, code: string)
    requires Commenting(lang, code)
    ensures code != [] && !IsSpace(code[0]) && !IsDirective(code) && !IsExpression(code)
    ensures '%' !in code && NoNul(code)
  {
  }

  lemma JsIsCommented(code: string)
    requires code == "x=1 //c " && Scan(JScript, LineComment, "c ") == LineComment
    ensures Scan(JScript, Ground, code) == LineComment
  {
    hide Scan;
    JsRest("//c ");
    var one := [' '] + "//c ";
    var value := ['1'] + one;
    JsOther(' ', "//c ");
    JsOther('1', one);
    JsOther('=', value);
    JsOther('x', ['='] + value);
    assert ['x'] + (['='] + value) == code;
  }

  lemma QuoteIsCommented(code: string)
    requires code == "x=1 'c " && Scan(VBScript, LineComment, "c ") == LineComment
    ensures Scan(VBScript, Ground, code) == LineComment
  {
    hide Scan;
    VbRest("'c ");
    var one := [' '] + "'c ";
    VbOther(' ', "'c ");
    VbWord("1", one);
    VbOther('=', "1" + one);
    VbWord("x", ['='] + ("1" + one));
    assert "x" + (['='] + ("1" + one)) == code;
  }

  lemma RemIsCommented(code: string)
    requires code == "If a Then Rem c " && Scan(VBScript, LineComment, " c ") == LineComment
    ensures Scan(VBScript, Ground, code) == LineComment
  {
    hide Scan;
    var rem := "Rem" + " c ";
    var more := "Then" + ([' '] + rem);
    var a := "a" + ([' '] + more);
    VbWord("Rem", " c ");
    VbOther(' ', rem);
    VbWord("Then", [' '] + rem);
    VbOther(' ', more);
    VbWord("a", [' '] + more);
    VbOther(' ', a);
    VbWord("If", [' '] + a);
    assert "If" + ([' '] + a) == code;
  }

  lemma {:induction false} CommentStays(lang: Lang, s: string)
    requires forall c :: c in s ==> !IsReturn(c)
    ensures Scan(lang, LineComment, s) == LineComment
  {
    if s != [] {
      CommentStays(lang, s[1..]);
    }
  }

  lemma JsRest(s: string)
    requires s == "//c " && Scan(JScript, LineComment, "c ") == LineComment
    ensures Scan(JScript, Ground, s) == LineComment
  {
    assert s[2..] == "c ";
    assert Scan(JScript, Ground, s) == ScanJs(s);
  }

  lemma JsOther(c: char, s: string)
    requires c !in "\"'/"
    ensures Scan(JScript, Ground, [c] + s) == Scan(JScript, Ground, s)
  {
    assert ([c] + s)[1..] == s;
    assert Scan(JScript, Ground, [c] + s) == ScanJs([c] + s);
  }

  lemma VbRest(s: string)
    requires s == "'c " && Scan(VBScript, LineComment, "c ") == LineComment
    ensures Scan(VBScript, Ground, s) == LineComment
  {
    assert s[1..] == "c ";
    assert Scan(VBScript, Ground, s) == ScanVb(s);
  }

  lemma VbOther(c: char, s: string)
    requires c !in "\"'[." && !IsWordChar(c)
    ensures Scan(VBScript, Ground, [c] + s) == Scan(VBScript, Ground, s)
  {
    assert ([c] + s)[1..] == s;
    assert Scan(VBScript, Ground, [c] + s) == ScanVb([c] + s);
  }

  lemma {:induction false} WordEnds(word: string, s: string)
    requires (forall c :: c in word ==> IsWordChar(c)) && (s != [] ==> !IsWordChar(s[0]))
    ensures WordLength(word + s) == |word|
  {
    if word == [] {
      assert word + s == s;
    } else {
      assert (word + s)[1..] == word[1..] + s;
      WordEnds(word[1..], s);
    }
  }

  lemma VbWord(word: string, s: string)
    requires word != [] && (forall c :: c in word ==> IsWordChar(c)) && (s != [] ==> !IsWordChar(s[0]))
    ensures Scan(VBScript, Ground, word + s) == Scan(VBScript, if IsRem(word) then LineComment else Ground, s)
  {
    WordEnds(word, s);
    assert (word + s)[..|word|] == word && (word + s)[|word|..] == s;
    assert (word + s)[0] in word;
    assert Scan(VBScript, Ground, word + s) == ScanVb(word + s);
  }

  lemma OneBlockRuns(lang: Lang, code: string)
    requires code != [] && !IsSpace(code[0]) && !IsDirective(code) && !IsExpression(code)
    requires Scan(lang, Ground, code) == LineComment
    ensures var segs := [Block(" " + code, ""), Plain("t")];
      && Meanings(segs) == [Do(code), Write("t")]
      && Run(lang, Idle, PagePieces(lang, "", segs)) == Some(([Do(code)], Commented))
  {
    hide Run, Scan, RunText, SegmentPieces, LeadingSpace, PlainScript, Meaning, Meanings, Returns;
    var block, plain := Block(" " + code, ""), Plain("t");
    OneBlockMeans(lang, code);
    var last := [Emitted(PlainScript(lang, "t"))];
    PlainPieces(lang, "t");
    assert [block, plain][1..] == [plain] && [plain][1..] == [];
    assert last + [] == last;
    assert AllPieces(lang, [plain]) == last;
    assert AllPieces(lang, [block, plain]) == SegmentPieces(lang, block) + last;
    assert Returns("") == "" by { ReturnsDoNothing(lang, ""); NoReturns(); }
    NothingRuns(lang, "");
    IdleIsIdle(lang, "");
    RunEmitted(lang, Idle, "", SegmentPieces(lang, block) + last);
    ThenNothing(Run(lang, Idle, SegmentPieces(lang, block) + last));
    SegmentRuns(lang, false, block, last);
    RunEmitted(lang, Commented, PlainScript(lang, "t"), []);
    NothingLeft(lang, Commented);
    assert LineFeeds("t") == 0 by { assert "t"[1..] == ""; }
    PlainInComment(lang, "t");
    assert [Do(code)] + [] == [Do(code)];
    ThenNothing(Some(([], Commented)));
  }

  lemma NoReturns()
    ensures Returns("") == "" && Returns(" ") == ""
  {
    assert " "[1..] == "";
  }

  lemma OneBlockMeans(lang: Lang, code: string)
    requires code != [] && !IsSpace(code[0]) && !IsDirective(code) && !IsExpression(code)
    requires Scan(lang, Ground, code) == LineComment
    ensures var block, plain := Block(" " + code, ""), Plain("t");
      && Meaning(block) == [Do(code)] && Meanings([block, plain]) == [Do(code), Write("t")]
      && Sound(lang, false, block) && LeavesOpen(lang, false, block)
  {
    hide Scan, Returns, LeadingSpace;
    var block, plain := Block(" " + code, ""), Plain("t");
    LeadingSpaceUnique(" " + code, 1);
    assert (" " + code)[1..] == code;
    NoReturns();
    assert [block, plain][1..] == [plain] && [plain][1..] == [];
    assert Crlf("t") == "t" by { assert "t"[1..] == ""; }
    assert Meaning(plain) == [Write("t")] && Meaning(block) == [Do(code)];
    assert Meanings([plain]) == [Write("t")] + Meanings([]) == [Write("t")];
    assert Meanings([block, plain]) == [Do(code)] + Meanings([plain]);
  }

  lemma PlainPieces(lang: Lang, text: string)
    ensures SegmentPieces(lang, Plain(text)) == [Emitted(PlainScript(lang, text))]
  {
  }

  lemma NothingLeft(lang: Lang, state: State)
    ensures Run(lang, state, []) == Some(([], state))
  {
  }

  /** Text whose lines end in CR LF reaches the client as it stands in the page. */
  lemma {:induction false} CrlfTextIsReproduced(text: string)
    requires forall i :: 0 <= i < |text| && text[i] == '\n' ==> i > 0 && text[i - 1] == '\r'
    requires forall i :: 0 <= i < |text| && text[i] == '\r' ==> i + 1 < |text| && text[i + 1] == '\n'
    ensures Crlf(text) == text
    decreases |text|
  {
    if text != [] {
      assert text[0] != '\n';
      if text[0] == '\r' {
        var rest := text[2..];
        assert text[1] == '\n' && text[1..][1..] == rest;
        forall i | 0 <= i < |rest| && rest[i] == '\n' ensures i > 0 && rest[i - 1] == '\r' {
          assert text[i + 2] == '\n' && text[i + 1] == '\r';
        }
        forall i | 0 <= i < |rest| && rest[i] == '\r' ensures i + 1 < |rest| && rest[i + 1] == '\n' {
          assert text[i + 2] == '\r' && text[i + 3] == '\n';
        }
        CrlfTextIsReproduced(rest);
        assert Crlf(text[1..]) == "\r\n" + Crlf(rest);
        assert "\r\n" + rest == text && "" + Crlf(text[1..]) == Crlf(text[1..]);
      } else {
        var rest := text[1..];
        forall i | 0 <= i < |rest| && rest[i] == '\n' ensures i > 0 && rest[i - 1] == '\r' {
          assert text[i + 1] == '\n' && text[i] == '\r';
        }
        forall i | 0 <= i < |rest| && rest[i] == '\r' ensures i + 1 < |rest| && rest[i + 1] == '\n' {
          assert text[i + 1] == '\r' && text[i + 2] == '\n';
        }
        CrlfTextIsReproduced(rest);
      }
    }
  }
}
