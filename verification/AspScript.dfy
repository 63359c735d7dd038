/** Compiling an ASP page into VBScript or JScript. */
module AspScript {
  import opened CStrings
  import opened Options
  import opened AspPage

  datatype Lang = VBScript | JScript

  const HTML_BEGIN: string := " Response.Write(\""
  const HTML_END_VB: string := "\"):    "
  const HTML_END_JS: string := "\");    "
  const EXP_BEGIN: string := " Response.Write("
  const EXP_END_VB: string := "):  "
  const EXP_END_JS: string := ");  "
  const MAX_VB_STRING: nat := 1000
  const VB_NEWLINE: string := "\"&chr(13)&chr(10)&\""
  const JS_NEWLINE: string := "\\r\\n"
  const VB_DOUBLE_QUOTE_REPLACEMENT: string := "\"&chr(34)&\""

  /** The result of a compilation; NullSearch: the search for "%>" failed where nobody checks. */
  datatype Outcome = Script(text: string) | NoScriptTerminator | NullSearch

  function HtmlEnd(lang: Lang): string {
    if lang == VBScript then HTML_END_VB else HTML_END_JS
  }

  function ExpEnd(lang: Lang): string {
    if lang == VBScript then EXP_END_VB else EXP_END_JS
  }

  function Separator(lang: Lang): char {
    if lang == VBScript then ':' else ';'
  }

  // ---------- The script of each segment ----------

  predicate IsReturn(c: char) {
    c == '\r' || c == '\n'
  }

  function ReturnOf(c: char): string {
    if IsReturn(c) then [c] else ""
  }

  /** The line ends in s. */
  function Returns(s: string): string {
    if s == [] then "" else ReturnOf(s[0]) + Returns(s[1..])
  }

  /** What a character of plain text becomes inside a string literal. */
  function Escape(lang: Lang, c: char): (e: string)
    ensures |e| <= |VB_NEWLINE|
  {
    if c == '\"' then if lang == VBScript then VB_DOUBLE_QUOTE_REPLACEMENT else "\\\""
    else if c == '\\' && lang == JScript then "\\\\"
    else if c == '\n' then if lang == VBScript then VB_NEWLINE else JS_NEWLINE
    else if c == '\r' then ""
    else [c]
  }

  function EscapeAll(lang: Lang, text: string): string {
    if text == [] then "" else Escape(lang, text[0]) + EscapeAll(lang, text[1..])
  }

  /** How much of the text goes into one statement of which `used` characters are written. */
  function StatementLength(lang: Lang, text: string, used: nat): (n: nat)
    ensures n <= |text| && (text != [] ==> n > 0)
    decreases |text|
  {
    if text == [] then 0
    else
      var u := used + |Escape(lang, text[0])|;
      if lang == VBScript && u >= MAX_VB_STRING then 1 else 1 + StatementLength(lang, text[1..], u)
  }

  function Statement(lang: Lang, text: string): string {
    HTML_BEGIN + EscapeAll(lang, text) + HtmlEnd(lang)
  }

  function Statements(lang: Lang, text: string): string
    decreases |text|
  {
    if text == [] then ""
    else
      var n := StatementLength(lang, text, |HTML_BEGIN|);
      Statement(lang, text[..n]) + Statements(lang, text[n..])
  }

  function LineFeeds(s: string): nat {
    if s == [] then 0 else (if s[0] == '\n' then 1 else 0) + LineFeeds(s[1..])
  }

  function Crlfs(n: nat): string {
    if n == 0 then "" else "\r\n" + Crlfs(n - 1)
  }

  function PlainScript(lang: Lang, text: string): string {
    Statements(lang, text) + Crlfs(LineFeeds(text))
  }

  /** The code of a block, behind its leading white space. */
  function CodeScript(lang: Lang, code: string): string {
    if code != [] && code[0] == '@' then Returns(code)
    else if code != [] && code[0] == '=' then EXP_BEGIN + code[1..] + ExpEnd(lang)
    else code
  }

  function BlockScript(lang: Lang, inner: string): string {
    Returns(inner[..LeadingSpace(inner)]) + CodeScript(lang, inner[LeadingSpace(inner)..])
  }

  /** Behind a block: its line ends, or a separator if it has none. */
  function Ending(lang: Lang, after: string): string {
    if Returns(after) == "" then [Separator(lang)] else Returns(after)
  }

  function SegmentScript(lang: Lang, seg: Segment): string {
    match seg
    case Plain(text) => PlainScript(lang, text)
    case Block(inner, after) => BlockScript(lang, inner) + Ending(lang, after)
  }

  function SegmentScripts(lang: Lang, segs: seq<Segment>): string {
    if segs == [] then "" else SegmentScript(lang, segs[0]) + SegmentScripts(lang, segs[1..])
  }

  // ---------- Sizing ----------

  const EXP_WRITE_ADD: nat := |EXP_BEGIN| + |EXP_END_JS|
  const STRING_WRITE_ADD: nat := |HTML_BEGIN| + |HTML_END_JS|

  function NewLineAdd(lang: Lang): nat {
    (if lang == VBScript then |VB_NEWLINE| else |JS_NEWLINE|) + 2
  }

  function ExtraOfChar(lang: Lang, c: char): nat {
    (if c == '\"' then if lang == VBScript then |VB_DOUBLE_QUOTE_REPLACEMENT| else 1 else 0)
    + (if c == '\n' then NewLineAdd(lang) else 0)
    + (if c == '\\' && lang == JScript then 1 else 0)
  }

  function ExtraOfText(lang: Lang, text: string): nat {
    if text == [] then 0 else ExtraOfChar(lang, text[0]) + ExtraOfText(lang, text[1..])
  }

  function ExtraOfPlain(lang: Lang, text: string): nat {
    STRING_WRITE_ADD * (if lang == VBScript then 1 + |text| / MAX_VB_STRING else 1) + ExtraOfText(lang, text)
  }

  /** What the sizing pass adds for a block, which starts behind its "<%". */
  function ExtraOfBlock(s: string): nat {
    var t := SkipSpace(s);
    if t != [] && t[0] == '=' then EXP_WRITE_ADD else 0
  }

  function Plus(n: nat, more: Option<nat>): Option<nat> {
    match more case None => None case Some(m) => Some(n + m)
  }

  /** The sizing pass; None stands for -1.  It looks for the end of a block from its "<%" on. */
  function Sizing(lang: Lang, s: string): Option<nat>
    decreases |s|
  {
    if s == [] then Some(0)
    else if StartsBlock(s) then
      var e := FindPair(s, '%', '>');
      if e == |s| then None else Plus(ExtraOfBlock(s[2..]), Sizing(lang, SkipSpace(s[e + 2..])))
    else
      var e := PlainLength(s);
      Plus(ExtraOfPlain(lang, s[..e]), Sizing(lang, s[e..]))
  }

  /** What a page compiles to. */
  function Compile(lang: Lang, page: string): Outcome {
    var n := LeadingSpace(page);
    if Sizing(lang, SkipSpace(page)).None? then NoScriptTerminator
    else
      match Segments(page[n..])
      case None => NullSearch
      case Some(segs) => Script(Returns(page[..n]) + SegmentScripts(lang, segs))
  }

  // ---------- Facts the loops need ----------

  lemma {:induction false} ReturnsAppend(a: string, b: string)
    ensures Returns(a + b) == Returns(a) + Returns(b)
  {
    hide ReturnOf;
    if a == [] {
      assert a + b == b;
    } else {
      assert (a + b)[1..] == a[1..] + b;
      ReturnsAppend(a[1..], b);
      Regroup(ReturnOf(a[0]), Returns(a[1..]), Returns(b));
    }
  }

  lemma {:induction false} EscapeAllAppend(lang: Lang, a: string, b: string)
    ensures EscapeAll(lang, a + b) == EscapeAll(lang, a) + EscapeAll(lang, b)
  {
    hide Escape;
    if a == [] {
      assert a + b == b;
    } else {
      assert (a + b)[1..] == a[1..] + b;
      EscapeAllAppend(lang, a[1..], b);
      Regroup(Escape(lang, a[0]), EscapeAll(lang, a[1..]), EscapeAll(lang, b));
    }
  }

  lemma {:induction false} LineFeedsAppend(a: string, b: string)
    ensures LineFeeds(a + b) == LineFeeds(a) + LineFeeds(b)
  {
    if a == [] {
      assert a + b == b;
    } else {
      assert (a + b)[1..] == a[1..] + b;
      LineFeedsAppend(a[1..], b);
    }
  }

  lemma {:induction false} SkipSpaceIsRest(s: string)
    ensures SkipSpace(s) == s[LeadingSpace(s)..]
  {
    if s != [] && IsSpace(s[0]) {
      SkipSpaceIsRest(s[1..]);
      assert s[1..][LeadingSpace(s[1..])..] == s[1 + LeadingSpace(s[1..])..];
    }
  }
}
