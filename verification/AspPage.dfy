/** How an ASP page falls into plain text and script blocks. */
module AspPage {
  import opened CStrings
  import opened Options

  /** Plain text, or what is between "<%" and "%>" with the white space behind it. */
  datatype Segment = Plain(text: string) | Block(inner: string, after: string)

  /** strstr for a two-character word: the first position, or |s|; a NUL ends the search. */
  function FindPair(s: string, a: char, b: char): (i: nat)
    ensures i <= |s| && (i < |s| ==> i + 2 <= |s| && s[i] == a && s[i + 1] == b)
  {
    if |s| < 2 || s[0] == '\0' then |s|
    else if s[0] == a && s[1] == b then 0
    else
      var i := FindPair(s[1..], a, b);
      1 + i
  }

  predicate StartsBlock(s: string) {
    |s| >= 2 && s[0] == '<' && s[1] == '%'
  }

  /** The script block at the front of s, the white space behind it, and the text behind that. */
  function TakeBlock(s: string): (r: Option<(string, string, string)>)
    requires StartsBlock(s)
    ensures r.Some? ==> |r.value.2| < |s|
  {
    var e := FindPair(s[2..], '%', '>');
    if e == |s| - 2 then None
    else
      var rest := s[e + 4..];
      var n := LeadingSpace(rest);
      Some((s[2..][..e], rest[..n], rest[n..]))
  }

  /** The segments of a page behind its leading white space; None when a script block does not end. */
  function Segments(s: string): Option<seq<Segment>>
    decreases |s|
  {
    if s == [] then Some([])
    else if StartsBlock(s) then
      match TakeBlock(s)
      case None => None
      case Some((inner, after, rest)) => InFront(Block(inner, after), Segments(rest))
    else
      var e := PlainLength(s);
      InFront(Plain(s[..e]), Segments(s[e..]))
  }

  function InFront(seg: Segment, more: Option<seq<Segment>>): Option<seq<Segment>> {
    match more case None => None case Some(segs) => Some([seg] + segs)
  }

  /** How far the plain text at the front of s goes. */
  function PlainLength(s: string): (e: nat)
    requires s != [] && !StartsBlock(s)
    ensures 0 < e <= |s|
  {
    FindPair(s, '<', '%')
  }

  // ---------- Nothing is lost ----------

  function Source(seg: Segment): string {
    match seg
    case Plain(text) => text
    case Block(inner, after) => "<%" + inner + "%>" + after
  }

  function Sources(segs: seq<Segment>): string {
    if segs == [] then "" else Source(segs[0]) + Sources(segs[1..])
  }

  lemma {:induction false} SegmentsMakeThePage(s: string)
    requires Segments(s).Some?
    ensures Sources(Segments(s).value) == s
    decreases |s|
  {
    hide TakeBlock, PlainLength, Source;
    if s == [] {
    } else if StartsBlock(s) {
      var (inner, after, rest) := TakeBlock(s).value;
      SegmentsMakeThePage(rest);
      SourcesOfMore(Block(inner, after), Segments(rest).value);
      BlockParts(s);
    } else {
      var e := PlainLength(s);
      SegmentsMakeThePage(s[e..]);
      SourcesOfMore(Plain(s[..e]), Segments(s[e..]).value);
      PlainParts(s, e);
    }
  }

  lemma PlainParts(s: string, e: nat)
    requires e <= |s|
    ensures Source(Plain(s[..e])) + s[e..] == s
  {
  }

  lemma BlockParts(s: string)
    requires StartsBlock(s) && TakeBlock(s).Some?
    ensures var (inner, after, rest) := TakeBlock(s).value;
      Source(Block(inner, after)) + rest == s
  {
    hide FindPair, LeadingSpace;
    var t := s[2..];
    var e := FindPair(t, '%', '>');
    var behind := s[e + 4..];
    var n := LeadingSpace(behind);
    assert behind[..n] + behind[n..] == behind;
    assert t[e..e + 2] == "%>" && t[e + 2..] == behind;
    assert t == t[..e] + (t[e..e + 2] + t[e + 2..]);
    assert s == "<%" + t;
    Regroup("<%" + t[..e] + "%>", behind[..n], behind[n..]);
    Regroup("<%" + t[..e], "%>", behind);
    Regroup("<%", t[..e], "%>" + behind);
  }

  lemma SourcesOfMore(seg: Segment, more: seq<Segment>)
    ensures Sources([seg] + more) == Source(seg) + Sources(more)
  {
    assert ([seg] + more)[1..] == more;
  }
}
