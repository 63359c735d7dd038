/**
  What receiving the header block of a request must come to, as a function of the byte stream alone:
  no word here of how the stream was cut into pieces.
*/
module HeaderBlock {
  import opened CStrings

  const MAX_WHITESPACE_READ: nat := 8

  /** The outcome of reading from a socket. */
  datatype Input = Ok | Timeout | Error | NoChange

  /** A blank line: two line ends in a row. */
  predicate BlankLineAt(t: string, i: int) {
    0 <= i && i + 3 < |t| && t[i] == '\r' && t[i + 1] == '\n' && t[i + 2] == '\r' && t[i + 3] == '\n'
  }

  /** The end of the header block in t: just behind its first blank line; 0 when there is none. */
  function BlockEnd(t: string, from: nat): (n: nat)
    ensures n != 0 ==> from + 4 <= n <= |t| && BlankLineAt(t, n - 4)
    ensures n != 0 ==> forall i :: from <= i < n - 4 ==> !BlankLineAt(t, i)
    ensures n == 0 ==> forall i :: from <= i ==> !BlankLineAt(t, i)
    decreases |t| - from
  {
    if from + 3 >= |t| then 0
    else if BlankLineAt(t, from) then from + 4
    else BlockEnd(t, from + 1)
  }

  /** The verdict on a stream of which at most max bytes may be header, and whether a header block was found. */
  function Verdict(stream: string, max: nat, closes: bool): (Input, bool) {
    var w := LeadingSpace(stream);
    var t := stream[w..];
    var end := BlockEnd(t, 0);
    if w >= MAX_WHITESPACE_READ || max <= w then (Error, false)
    else if 0 < end <= max then (Ok, true)
    else if max <= |t| then (Error, false)
    else if stream == [] then (Timeout, false)
    else (if closes then Ok else Error, false)
  }

  /** A header block: it begins with no white space, and ends with its first blank line. */
  predicate IsBlock(block: string) {
    && |block| >= 4 && !IsSpace(block[0]) && BlankLineAt(block, |block| - 4)
    && forall i :: 0 <= i < |block| - 4 ==> !BlankLineAt(block, i)
  }

  /** The stream is less than eight white space characters, a block within the limit, and anything. */
  predicate HasBlock(stream: string, max: nat, space: string, block: string, rest: string) {
    && stream == space + (block + rest) && AllSpace(space) && |space| < 8 && |space| < max
    && IsBlock(block) && |block| <= max
  }

  /** Nothing but white space comes for eight characters or up to the limit, or the limit is reached behind it. */
  predicate TooLong(stream: string, max: nat, space: string, text: string) {
    && stream == space + text && AllSpace(space) && (text != "" ==> !IsSpace(text[0]))
    && (|space| >= 8 || |space| >= max || |text| >= max)
  }

  /** When a header block is found, and what the verdict is if none is, for every stream. */
  lemma VerdictExactly(stream: string, max: nat, closes: bool)
    ensures var v := Verdict(stream, max, closes);
      && (v.1 <==> exists space, block, rest :: HasBlock(stream, max, space, block, rest))
      && (v.1 ==> v.0 == Ok)
      && (!v.1 ==>
            if exists space, text :: TooLong(stream, max, space, text) then v.0 == Error
            else if stream == "" then v.0 == Timeout
            else if closes then v.0 == Ok else v.0 == Error)
  {
    hide BlockEnd, LeadingSpace, Verdict;
    var v, w := Verdict(stream, max, closes), LeadingSpace(stream);
    var t := stream[w..];
    assert v == VerdictOf(stream, max, closes, w, BlockEnd(t, 0)) by { VerdictIs(stream, max, closes); }
    assert stream == stream[..w] + t;
    TooLongExactly(stream, max);
    forall space, block, rest | HasBlock(stream, max, space, block, rest)
      ensures |space| == w && BlockEnd(t, 0) == |block| <= max
    {
      BlockIsRead(stream, max, space, block, rest);
    }
    if w < 8 && w < max && 0 < BlockEnd(t, 0) <= max {
      BlockIsThere(stream, max);
    }
  }

  /** The verdict from the white space in front and the end of the block. */
  function VerdictOf(stream: string, max: nat, closes: bool, w: nat, end: nat): (Input, bool)
    requires w <= |stream|
  {
    if w >= 8 || w >= max then (Error, false)
    else if 0 < end <= max then (Ok, true)
    else if max <= |stream| - w then (Error, false)
    else if stream == "" then (Timeout, false)
    else (if closes then Ok else Error, false)
  }

  lemma VerdictIs(stream: string, max: nat, closes: bool)
    ensures Verdict(stream, max, closes)
      == VerdictOf(stream, max, closes, LeadingSpace(stream), BlockEnd(stream[LeadingSpace(stream)..], 0))
  {
    hide BlockEnd, LeadingSpace;
  }

  lemma SpaceInFront(stream: string, space: string, text: string)
    requires stream == space + text && AllSpace(space) && (text != "" ==> !IsSpace(text[0]))
    ensures LeadingSpace(stream) == |space|
  {
    assert forall i :: 0 <= i < |space| ==> space[i] in space;
    LeadingSpaceUnique(stream, |space|);
  }

  lemma TooLongExactly(stream: string, max: nat)
    ensures (exists space, text :: TooLong(stream, max, space, text))
      <==> LeadingSpace(stream) >= 8 || LeadingSpace(stream) >= max || |stream| - LeadingSpace(stream) >= max
  {
    hide LeadingSpace, IsSpace;
    var w := LeadingSpace(stream);
    assert stream == stream[..w] + stream[w..];
    assert TooLong(stream, max, stream[..w], stream[w..]) <==> w >= 8 || w >= max || |stream| - w >= max;
    forall space, text | TooLong(stream, max, space, text) ensures |space| == w && |text| == |stream| - w {
      SpaceInFront(stream, space, text);
    }
  }

  lemma BlankLineText(t: string, i: nat)
    ensures BlankLineAt(t, i) <==> i + 4 <= |t| && t[i..i + 4] == "\r\n\r\n"
  {
    if i + 4 <= |t| {
      var b := t[i..i + 4];
      assert b[0] == t[i] && b[1] == t[i + 1] && b[2] == t[i + 2] && b[3] == t[i + 3];
    }
  }

  lemma BlockIsRead(stream: string, max: nat, space: string, block: string, rest: string)
    requires HasBlock(stream, max, space, block, rest)
    ensures LeadingSpace(stream) == |space| && BlockEnd(stream[|space|..], 0) == |block|
  {
    hide BlockEnd, LeadingSpace, BlankLineAt, IsSpace;
    SpaceInFront(stream, space, block + rest);
    assert stream[|space|..] == block + rest;
    BlockEndOfPrefix(block, rest, |block| - 4);
  }

  lemma BlockIsThere(stream: string, max: nat)
    requires var w := LeadingSpace(stream); w < 8 && w < max && 0 < BlockEnd(stream[w..], 0) <= max
    ensures exists space, block, rest :: HasBlock(stream, max, space, block, rest)
  {
    hide BlockEnd, LeadingSpace, BlankLineAt, IsSpace;
    var w := LeadingSpace(stream);
    var t := stream[w..];
    var n := BlockEnd(t, 0);
    var block := t[..n];
    FirstBlankLine(t, n);
    assert block[0] == stream[w];
    assert stream == stream[..w] + (block + t[n..]);
    assert HasBlock(stream, max, stream[..w], block, t[n..]);
  }

  lemma FirstBlankLine(t: string, n: nat)
    requires n == BlockEnd(t, 0) != 0
    ensures 4 <= n <= |t| && BlankLineAt(t[..n], n - 4) && forall i :: 0 <= i < n - 4 ==> !BlankLineAt(t[..n], i)
  {
    hide BlockEnd;
    forall i | 0 <= i < n - 4 ensures !BlankLineAt(t[..n], i) {
      assert !BlankLineAt(t, i);
    }
  }

  /** A blank line seen first in what has arrived is the first of the whole stream. */
  lemma BlockEndOfPrefix(p: string, rest: string, i: nat)
    requires BlankLineAt(p, i) && forall j :: 0 <= j < i ==> !BlankLineAt(p, j)
    ensures BlockEnd(p + rest, 0) == i + 4
  {
    var t := p + rest;
    assert BlankLineAt(t, i);
    var n := BlockEnd(t, 0);
    assert n == 0 || n - 4 > i ==> !BlankLineAt(t, i);
    assert 0 < n && n - 4 < i ==> BlankLineAt(p, n - 4);
  }

  /** If no blank line has arrived, the first one ends beyond what has. */
  lemma BlockEndBeyond(p: string, rest: string)
    requires forall j :: 0 <= j ==> !BlankLineAt(p, j)
    ensures var n := BlockEnd(p + rest, 0); n == 0 || n > |p|
  {
    var n := BlockEnd(p + rest, 0);
    if n != 0 && n <= |p| {
      assert BlankLineAt(p, n - 4);
    }
  }

  /** The white space in front of what has arrived, and of the whole stream. */
  lemma LeadingSpaceOfPrefix(p: string, rest: string)
    ensures LeadingSpace(p) < |p| ==> LeadingSpace(p + rest) == LeadingSpace(p)
    ensures LeadingSpace(p) == |p| ==> LeadingSpace(p + rest) >= |p|
  {
    var n := LeadingSpace(p);
    if n < |p| {
      LeadingSpaceUnique(p + rest, n);
    } else {
      assert LeadingSpace(p + rest) < |p| ==> SpaceAt(p, LeadingSpace(p + rest));
    }
  }

  /** held has arrived, rest has not: no header block in what has, its leading white space dropped or all there is. */
  ghost predicate NoBlockIn(stream: string, held: string, rest: string, max: nat) {
    var w := LeadingSpace(stream);
    || (held + rest == stream && |held| <= w && |held| < MAX_WHITESPACE_READ)
    || (held + rest == stream[w..] && 0 < |held| && w < MAX_WHITESPACE_READ && w < max
      && forall i :: 0 <= i ==> !BlankLineAt(held, i))
  }

  /** The verdict when n bytes are held without a header block, and the limit or the end of the stream is reached. */
  function NoBlockStatus(n: nat, max: nat, closes: bool): Input {
    if max <= n then Error
    else if n == 0 then Timeout
    else if closes then Ok else Error
  }

  /** The branches of Verdict without a header block. */
  lemma VerdictWithoutBlock(stream: string, max: nat, closes: bool)
    ensures var w := LeadingSpace(stream);
      var t, v := stream[w..], Verdict(stream, max, closes);
      && (w >= MAX_WHITESPACE_READ || max <= w ==> v == (Error, false))
      && (w < MAX_WHITESPACE_READ && w < max && !(0 < BlockEnd(t, 0) <= max) ==>
            && (max <= |t| ==> v == (Error, false))
            && (max > |t| ==> v == (if stream == [] then Timeout else if closes then Ok else Error, false)))
  {
    hide BlockEnd, LeadingSpace;
  }

  /** Nothing but white space has come. */
  lemma OnlySpaceVerdict(stream: string, held: string, max: nat, closes: bool)
    requires held <= stream && |held| <= LeadingSpace(stream) && |held| < MAX_WHITESPACE_READ
    requires max <= |held| || held == stream
    ensures Verdict(stream, max, closes) == (NoBlockStatus(|held|, max, closes), false)
  {
    hide BlockEnd, LeadingSpace, Verdict;
    VerdictWithoutBlock(stream, max, closes);
    if max > |held| {
      assert stream[LeadingSpace(stream)..] == [];
    }
  }

  /** Something else has come, without a blank line. */
  lemma SolidVerdict(stream: string, held: string, rest: string, max: nat, closes: bool)
    requires var w := LeadingSpace(stream); held + rest == stream[w..] && w < MAX_WHITESPACE_READ && w < max
    requires held != [] && (forall i :: 0 <= i ==> !BlankLineAt(held, i)) && (max <= |held| || rest == [])
    ensures Verdict(stream, max, closes) == (NoBlockStatus(|held|, max, closes), false)
  {
    hide BlockEnd, LeadingSpace, Verdict, BlankLineAt;
    BlockEndBeyond(held, rest);
    VerdictWithoutBlock(stream, max, closes);
    var t := stream[LeadingSpace(stream)..];
    assert t == held + rest && |t| == |held| + |rest|;
    assert !(0 < BlockEnd(t, 0) <= max);
  }

  lemma NoBlockVerdict(stream: string, held: string, rest: string, max: nat, closes: bool)
    requires NoBlockIn(stream, held, rest, max)
    requires max <= |held| || rest == []
    ensures Verdict(stream, max, closes) == (NoBlockStatus(|held|, max, closes), false)
  {
    hide BlockEnd, LeadingSpace, Verdict, NoBlockStatus, BlankLineAt;
    if held + rest == stream && |held| <= LeadingSpace(stream) && |held| < MAX_WHITESPACE_READ {
      assert held <= held + rest && (rest == [] ==> held == held + rest);
      OnlySpaceVerdict(stream, held, max, closes);
    } else {
      SolidVerdict(stream, held, rest, max, closes);
    }
  }

  /**
    The state of the search: held has arrived and holds no blank line before scan; the white space
    in front is dropped (trimmed) once anything else has come.
  */
  ghost predicate Reading(stream: string, held: string, rest: string, scan: nat, trimmed: bool, max: nat) {
    && (scan == 0 || scan + 3 <= |held|)
    && |held| <= max
    && (forall i :: 0 <= i < scan ==> !BlankLineAt(held, i))
    && (if trimmed
        then LeadingSpace(stream) < MAX_WHITESPACE_READ && LeadingSpace(stream) < max && 0 < |held|
             && held + rest == stream[LeadingSpace(stream)..]
        else scan == 0 && held + rest == stream)
  }

  /** More input behind what has been searched keeps the state of the search. */
  lemma ReadingGoesOn(stream: string, held: string, rest: string, held': string, rest': string, scan: nat,
      trimmed: bool, max: nat)
    requires Reading(stream, held, rest, scan, trimmed, max)
    requires held <= held' && held' + rest' == held + rest && |held'| <= max
    ensures Reading(stream, held', rest', scan, trimmed, max)
  {
    assert forall i :: 0 <= i < scan && BlankLineAt(held', i) ==> BlankLineAt(held, i);
  }

  /** Dropping the white space in front of what has arrived, if anything else has: the search may start. */
  lemma TrimmedReading(stream: string, held: string, rest: string, was: bool, max: nat)
    requires Reading(stream, held, rest, 0, was, max) && held != []
    ensures LeadingSpace(held) >= MAX_WHITESPACE_READ ==> LeadingSpace(stream) >= MAX_WHITESPACE_READ && !was
    ensures LeadingSpace(held) < MAX_WHITESPACE_READ && LeadingSpace(held) < |held| ==>
      Reading(stream, held[LeadingSpace(held)..], rest, 0, true, max)
    ensures LeadingSpace(held) < MAX_WHITESPACE_READ && LeadingSpace(held) == |held| ==>
      Reading(stream, held, rest, 0, false, max) && NoBlockIn(stream, held, rest, max)
  {
    var n, w := LeadingSpace(held), LeadingSpace(stream);
    LeadingSpaceOfPrefix(held, rest);
    if was {
      assert (held + rest)[0] == stream[w];
      assert !IsSpace(held[0]);
      assert held[0..] == held;
    } else if n < |held| {
      assert held[n..] + rest == stream[n..];
    }
  }

  /** The search ended: too much white space, a header block, or neither and nothing more to come. */
  ghost predicate Outcome(stream: string, held: string, rest: string, status: Input, max: nat, closes: bool) {
    var w := LeadingSpace(stream);
    || (status == Error && w >= MAX_WHITESPACE_READ && held + rest == stream)
    || (status == Ok && w < MAX_WHITESPACE_READ && w < max && held + rest == stream[w..] && |held| <= max
        && exists i :: 0 <= i && BlankLineAt(held, i) && forall j :: 0 <= j < i ==> !BlankLineAt(held, j))
    || (NoBlockIn(stream, held, rest, max) && (max <= |held| || rest == [])
      && status == NoBlockStatus(|held|, max, closes))
  }

  lemma OutcomeIsVerdict(stream: string, held: string, rest: string, status: Input, max: nat, closes: bool)
    requires Outcome(stream, held, rest, status, max, closes)
    ensures status == Verdict(stream, max, closes).0
    ensures held + rest == stream || held + rest == stream[LeadingSpace(stream)..]
    ensures Verdict(stream, max, closes).1 ==>
      && held + rest == stream[LeadingSpace(stream)..]
      && BlockEnd(stream[LeadingSpace(stream)..], 0) <= |held| <= max
  {
    var w := LeadingSpace(stream);
    if NoBlockIn(stream, held, rest, max) && (max <= |held| || rest == []) {
      NoBlockVerdict(stream, held, rest, max, closes);
    }
    if w < MAX_WHITESPACE_READ && w < max && held + rest == stream[w..] {
      forall i | 0 <= i && BlankLineAt(held, i) && forall j :: 0 <= j < i ==> !BlankLineAt(held, j)
        ensures BlockEnd(stream[w..], 0) == i + 4
      {
        BlockEndOfPrefix(held, rest, i);
      }
    }
  }
}
