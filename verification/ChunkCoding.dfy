/**
  The chunked transfer coding of section 3.6.1 of RFC 2616, as the server decodes it: a pure decoder
  over the whole byte stream, and the grammar's own encoder, which the decoder inverts as long as no
  chunk of 0xFFFFFFFF bytes begins beyond the reach of the initial read.

  The imperative decoder, which works in place on a buffer while bytes keep arriving, is in
  ChunkedUpload.dfy; it is proved to refine the decoder of this module.
*/
module ChunkCoding {

  import opened CStrings

  const MAX_CHUNK_EXTENSION: nat := 5000
  const DWORD_MAX: nat := 0xFFFF_FFFF
  /** (DWORD)-1 in the counter of undelivered chunk bytes: the last chunk has been seen. */
  const END_OF_BODY: nat := DWORD_MAX

  const CRLF: string := "\r\n"

  /** The value of a hexadecimal digit, or -1. */
  function HexDigit(c: char): (d: int)
    ensures -1 <= d < 16
  {
    if '0' <= c <= '9' then c as int - '0' as int
    else if 'A' <= c <= 'F' then c as int - 'A' as int + 10
    else if 'a' <= c <= 'f' then c as int - 'a' as int + 10
    else -1
  }

  /** What parsing a piece of a chunk header yields; Truncated means that the bytes ran out. */
  datatype Parsed =
    | At(size: nat, last: char, rest: string)
    | Malformed
    | Truncated

  /** Reads one byte and insists that it is c. */
  function Expect(v: string, c: char): (r: Parsed)
    ensures r.At? ==> v == [c] + r.rest
  {
    if v == [] then Truncated
    else if v[0] != c then Malformed
    else At(0, c, v[1..])
  }

  function ExpectCrLf(v: string): (r: Parsed)
    ensures r.At? ==> v == CRLF + r.rest
  {
    var cr := Expect(v, '\r');
    if cr.At? then Expect(cr.rest, '\n') else cr
  }

  /** The chunk size: hexadecimal digits up to a ';' or a CR; the sum is a 32-bit number. */
  function ParseSize(v: string, sum: nat): (r: Parsed)
    ensures r.At? ==> |r.rest| < |v|
    ensures r.At? && sum <= DWORD_MAX ==> r.size <= DWORD_MAX
  {
    if v == [] then Truncated
    else if HexDigit(v[0]) >= 0 then
      var sum' := sum * 16 + HexDigit(v[0]);
      if sum' > DWORD_MAX then Malformed else ParseSize(v[1..], sum')
    else if v[0] == ';' || v[0] == '\r' then At(sum, v[0], v[1..])
    else Malformed
  }

  /**
    The chunk extension up to its CRLF.  A CR that no LF follows is swallowed together with the
    byte after it; count is the number of extension bytes swallowed so far.
  */
  function SkipExtension(v: string, count: nat): (r: Parsed)
    ensures r.At? ==> |r.rest| < |v|
  {
    if count >= MAX_CHUNK_EXTENSION then Malformed
    else if v == [] then Truncated
    else if v[0] != '\r' then SkipExtension(v[1..], count + 1)
    else if |v| == 1 then Truncated
    else if v[1] != '\n' then SkipExtension(v[2..], count + 2)
    else if count + 1 >= MAX_CHUNK_EXTENSION then Malformed
    else At(0, '\n', v[2..])
  }

  /** What follows the size digits: an extension, or just the LF. */
  function ParseTail(s: Parsed): (r: Parsed)
    requires s.At?
    ensures r.At? ==> r.size == s.size && |r.rest| < |s.rest|
  {
    var t := if s.last == ';' then SkipExtension(s.rest, 0) else Expect(s.rest, '\n');
    if t.At? then At(s.size, '\n', t.rest) else t
  }

  function ParseSizeLine(v: string): (r: Parsed)
    ensures r.At? ==> |r.rest| < |v| && r.size <= DWORD_MAX
  {
    var s := ParseSize(v, 0);
    if s.At? then ParseTail(s) else s
  }

  /** A whole chunk header; every one but the first is preceded by the CRLF that ends the chunk before it. */
  function ParseHeader(v: string, trailer: bool): (r: Parsed)
    ensures r.At? ==> |r.rest| < |v| && r.size <= DWORD_MAX
  {
    if !trailer then ParseSizeLine(v)
    else
      var t := ExpectCrLf(v);
      if t.At? then ParseSizeLine(t.rest) else t
  }

  /** How the decoding of a body ends. */
  datatype Ending =
    | Complete    // the extension is told that there is no more
    | Broken      // a header violates the coding
    | Cut         // the stream ends first

  datatype Decoded = Decoded(bytes: string, end: Ending)
  {
    function Prefixed(p: string): Decoded { Decoded(p + bytes, end) }
  }

  function Less(a: nat, b: nat): (d: nat)
    ensures a <= b ==> d == 0
    ensures a >= b ==> d == a - b
  {
    if a < b then 0 else a - b
  }

  /**
    How far the initial read gets from some point of the stream on: `hand` more bytes of the stream
    are in the buffer already, and it reads on until `room` more bytes of the body are there.
  */
  datatype Reach = Reach(hand: nat, room: nat)
  {
    /** Behind some more bytes of the stream, of which `data` belong to the body. */
    function Past(bytes: nat, data: nat): Reach { Reach(Less(hand, bytes), Less(room, data)) }
  }

  const BEYOND := Reach(0, 0)

  /**
    What the server makes of the stream v when a chunk header comes next.  A chunk of 0xFFFFFFFF bytes
    is taken for the end of the body if its data lies beyond the initial read: its size is never
    lowered then, and stays what marks the end of the body.
  */
  function Decode(v: string, trailer: bool, reach: Reach): Decoded
    decreases |v|, 1
  {
    match ParseHeader(v, trailer)
    case Malformed => Decoded([], Broken)
    case Truncated => Decoded([], Cut)
    case At(size, _, rest) => Chunked(size, rest, reach.Past(|v| - |rest|, 0))
  }

  /** A chunk header that says `size` has just been read. */
  function Chunked(size: nat, rest: string, reach: Reach): Decoded
    decreases |rest|, 3
  {
    if size == 0 || (size == END_OF_BODY && reach == BEYOND) then Decoded([], Complete)
    else Undelivered(size, rest, reach)
  }

  /** What the stream v holds when n bytes of the current chunk come next. */
  function Undelivered(n: nat, v: string, reach: Reach): Decoded
    decreases |v|, 2
  {
    if |v| < n then Decoded(v, Cut)
    else Decode(v[n..], true, reach.Past(n, n)).Prefixed(v[..n])
  }

  /** The bytes still to be delivered, from the counter kept between two reads and the unread stream. */
  function Pending(counter: nat, v: string): Decoded {
    if counter == END_OF_BODY then Decoded([], Complete) else Undelivered(counter, v, BEYOND)
  }

  /** Taking a few bytes of the current chunk off the front of the stream. */
  lemma {:induction false} UndeliveredSplit(n: nat, v: string, k: nat, reach: Reach)
    requires k <= n && k <= |v|
    ensures Undelivered(n, v, reach) == Undelivered(n - k, v[k..], reach.Past(k, k)).Prefixed(v[..k])
  {
    hide Decode;
    if |v| < n {
      assert v[..k] + v[k..] == v;
    } else {
      assert v[k..][n - k..] == v[n..];
      assert v[..k] + v[k..][..n - k] == v[..n];
      assert reach.Past(k, k).Past(n - k, n - k) == reach.Past(n, n);
      PrefixedTwice(Decode(v[n..], true, reach.Past(n, n)), v[..k], v[k..][..n - k]);
    }
  }

  lemma {:induction false} PrefixedTwice(d: Decoded, p: string, q: string)
    ensures d.Prefixed(q).Prefixed(p) == d.Prefixed(p + q)
  {
    assert p + (q + d.bytes) == p + q + d.bytes;
  }

  /** One step of the decoder: what a header says about the rest of the stream. */
  lemma DecodeHeader(v: string, trailer: bool, reach: Reach)
    ensures var h, d := ParseHeader(v, trailer), Decode(v, trailer, reach);
      && (h == Truncated ==> d == Decoded([], Cut))
      && (h == Malformed ==> d == Decoded([], Broken))
      && (h.At? ==>
            && |h.rest| < |v| && h.size <= END_OF_BODY
            && d == Chunked(h.size, h.rest, reach.Past(|v| - |h.rest|, 0)))
  {
  }

  /** Taking bytes of the current chunk off the stream and putting them behind what is decoded. */
  lemma {:induction false} DataTaken(n: nat, v: string, k: nat, done: string, reach: Reach)
    requires k <= n && k <= |v|
    ensures Undelivered(n, v, reach).Prefixed(done)
      == Undelivered(n - k, v[k..], reach.Past(k, k)).Prefixed(done + v[..k])
  {
    hide Undelivered;
    UndeliveredSplit(n, v, k, reach);
    PrefixedTwice(Undelivered(n - k, v[k..], reach.Past(k, k)), done, v[..k]);
  }

  lemma {:induction false} NothingOfTheChunkLeft(v: string, done: string, reach: Reach)
    ensures Undelivered(0, v, reach).Prefixed(done) == Decode(v, true, reach).Prefixed(done)
  {
    hide Decode;
    assert v[0..] == v && reach.Past(0, 0) == reach;
    PrefixedTwice(Decode(v, true, reach), done, v[..0]);
    assert done + v[..0] == done;
  }

  /** All of the current chunk is at hand. */
  lemma {:induction false} ChunkAtHand(n: nat, hand: string, unread: string, done: string, reach: Reach)
    requires n <= |hand|
    ensures Undelivered(n, hand + unread, reach).Prefixed(done)
         == Decode(hand[n..] + unread, true, reach.Past(n, n)).Prefixed(done + hand[..n])
  {
    hide Decode, Undelivered;
    var v := hand + unread;
    DataTaken(n, v, n, done, reach);
    assert v[n..] == hand[n..] + unread && v[..n] == hand[..n];
    NothingOfTheChunkLeft(v[n..], done + hand[..n], reach.Past(n, n));
  }

  lemma {:induction false} DataArrives(n: nat, v: string, reach: Reach)
    ensures |v| < n ==> Undelivered(n, v, reach) == Decoded(v, Cut)
  {
  }

  lemma PrefixedByNothing(d: Decoded)
    ensures d.Prefixed([]) == d
  {
    assert [] + d.bytes == d.bytes;
  }

  // ---------- The grammar ----------

  /** One chunk as the client writes it: its size in hexadecimal, perhaps an extension, and its data. */
  datatype Chunk = Chunk(digits: string, ext: Extension, data: string)

  datatype Extension = NoExtension | Extension(text: string)

  /** A body: its chunks, and the zero-sized last chunk. */
  datatype Body = Body(chunks: seq<Chunk>, lastDigits: string, lastExt: Extension)

  /** The sixteen digits, in either case; the value of a digit is its place. */
  const UPPER: string := "0123456789ABCDEF"
  const LOWER: string := "0123456789abcdef"

  predicate IsHex(c: char) {
    c in UPPER || c in LOWER
  }

  function Place(c: char): (d: nat)
    requires IsHex(c)
    ensures d < 16 && (UPPER[d] == c || LOWER[d] == c)
  {
    if c in UPPER then Find(UPPER, c) else Find(LOWER, c)
  }

  predicate AllHex(digits: string) {
    forall i :: 0 <= i < |digits| ==> IsHex(digits[i])
  }

  function HexValue(digits: string, sum: nat): nat
    requires AllHex(digits)
  {
    if digits == [] then sum else HexValue(digits[1..], sum * 16 + Place(digits[0]))
  }

  /** n to the base of 16. */
  function Hex(n: nat, upper: bool): (digits: string)
    ensures digits != []
  {
    (if n < 16 then [] else Hex(n / 16, upper)) + [(if upper then UPPER else LOWER)[n % 16]]
  }

  /** The body that carries these pieces of data, its sizes written in upper or lower case. */
  function Coded(pieces: seq<string>, upper: bool): Body {
    Body(CodedChunks(pieces, upper), Hex(0, upper), NoExtension)
  }

  function CodedChunks(pieces: seq<string>, upper: bool): (cs: seq<Chunk>)
    ensures |cs| == |pieces|
    ensures forall i :: 0 <= i < |cs| ==> cs[i] == Chunk(Hex(|pieces[i]|, upper), NoExtension, pieces[i])
  {
    seq(|pieces|, i requires 0 <= i < |pieces| => Chunk(Hex(|pieces[i]|, upper), NoExtension, pieces[i]))
  }

  function Concatenated(pieces: seq<string>): string {
    if pieces == [] then [] else pieces[0] + Concatenated(pieces[1..])
  }

  predicate NoCrLf(s: string) {
    forall i :: 0 <= i < |s| - 1 ==> !(s[i] == '\r' && s[i + 1] == '\n')
  }

  /** The number of CRs at the end of s. */
  function TrailingCrs(s: string): (n: nat)
    ensures n <= |s|
  {
    if s != [] && s[|s| - 1] == '\r' then 1 + TrailingCrs(s[..|s| - 1]) else 0
  }

  /** The extensions whose end the server finds; see ExtensionFoundExactly. */
  predicate ExtensionFits(e: Extension) {
    e.Extension? ==> NoCrLf(e.text) && TrailingCrs(e.text) % 2 == 0 && |e.text| < 4999
  }

  predicate WellFormedChunk(c: Chunk) {
    && AllHex(c.digits) && ExtensionFits(c.ext)
    && HexValue(c.digits, 0) == |c.data| && 1 <= |c.data| <= DWORD_MAX
  }

  predicate WellFormed(b: Body) {
    && (forall i :: 0 <= i < |b.chunks| ==> WellFormedChunk(b.chunks[i]))
    && AllHex(b.lastDigits) && ExtensionFits(b.lastExt) && HexValue(b.lastDigits, 0) == 0
  }

  function RenderSizeLine(digits: string, ext: Extension): string {
    match ext
    case NoExtension => digits + CRLF
    case Extension(text) => digits + [';'] + text + CRLF
  }

  function RenderChunks(cs: seq<Chunk>): string {
    if cs == [] then []
    else RenderSizeLine(cs[0].digits, cs[0].ext) + cs[0].data + CRLF + RenderChunks(cs[1..])
  }

  function Render(b: Body): string {
    RenderChunks(b.chunks) + RenderSizeLine(b.lastDigits, b.lastExt)
  }

  function Payload(cs: seq<Chunk>): string {
    if cs == [] then [] else cs[0].data + Payload(cs[1..])
  }

  // ---------- The digits ----------

  /** The server reads each of the sixteen digits, in either case, as its place, and takes no other character. */
  lemma HexDigitExactly(d: nat, c: char)
    ensures d < 16 ==> HexDigit(UPPER[d]) == d && HexDigit(LOWER[d]) == d
    ensures HexDigit(c) >= 0 <==> IsHex(c)
    ensures IsHex(c) ==> HexDigit(c) == Place(c)
  {
    forall k: nat | k < 16 ensures HexDigit(UPPER[k]) == k && HexDigit(LOWER[k]) == k {
      DigitsInOrder(k);
    }
    var h := HexDigit(c);
    if h >= 0 {
      DigitsInOrder(h);
      assert c == UPPER[h] || c == LOWER[h];
    }
  }

  lemma DigitsInOrder(k: nat)
    requires k < 16
    ensures UPPER[k] as int == if k < 10 then 48 + k else 55 + k
    ensures LOWER[k] as int == if k < 10 then 48 + k else 87 + k
  {
  }

  lemma {:induction false} HexValueOfMore(digits: string, c: char, sum: nat)
    requires AllHex(digits) && IsHex(c)
    ensures AllHex(digits + [c]) && HexValue(digits + [c], sum) == HexValue(digits, sum) * 16 + Place(c)
  {
    hide IsHex, Place;
    var more := digits + [c];
    if digits == [] {
      assert more[0] == c && more[1..] == [];
      assert HexValue([], sum * 16 + Place(c)) == sum * 16 + Place(c);
    } else {
      assert more[1..] == digits[1..] + [c];
      HexValueOfMore(digits[1..], c, sum * 16 + Place(digits[0]));
    }
  }

  lemma PlaceOf(d: nat, upper: bool)
    requires d < 16
    ensures var c := (if upper then UPPER else LOWER)[d]; IsHex(c) && Place(c) == d
  {
    var c := (if upper then UPPER else LOWER)[d];
    assert c in (if upper then UPPER else LOWER);
    HexDigitExactly(d, c);
  }

  /** Writing a number in hexadecimal, in either case, and reading it back. */
  lemma {:induction false} HexRoundTrip(n: nat, upper: bool)
    ensures AllHex(Hex(n, upper)) && HexValue(Hex(n, upper), 0) == n
  {
    hide IsHex, Place;
    PlaceOf(n % 16, upper);
    var c := (if upper then UPPER else LOWER)[n % 16];
    if n < 16 {
      HexValueOfMore([], c, 0);
    } else {
      HexRoundTrip(n / 16, upper);
      HexValueOfMore(Hex(n / 16, upper), c, 0);
    }
  }

  // ---------- The decoder inverts the grammar ----------

  lemma {:induction false} HexValueGrows(digits: string, sum: nat)
    requires AllHex(digits)
    ensures HexValue(digits, sum) >= sum
  {
    if digits != [] {
      HexValueGrows(digits[1..], sum * 16 + Place(digits[0]));
    }
  }

  lemma {:induction false} ParseSizeOfDigits(digits: string, c: char, v: string, sum: nat)
    requires AllHex(digits) && (c == ';' || c == '\r') && HexValue(digits, sum) <= DWORD_MAX
    ensures ParseSize(digits + ([c] + v), sum) == At(HexValue(digits, sum), c, v)
  {
    hide IsHex, Place;
    if digits == [] {
      assert digits + ([c] + v) == [c] + v && ([c] + v)[1..] == v;
    } else {
      var sum' := sum * 16 + Place(digits[0]);
      assert HexValue(digits, sum) == HexValue(digits[1..], sum');
      HexValueGrows(digits[1..], sum');
      ParseSizeDigit(digits, [c] + v, sum);
      ParseSizeOfDigits(digits[1..], c, v, sum');
    }
  }

  lemma ParseSizeDigit(digits: string, v: string, sum: nat)
    requires digits != [] && IsHex(digits[0]) && sum * 16 + Place(digits[0]) <= DWORD_MAX
    ensures ParseSize(digits + v, sum) == ParseSize(digits[1..] + v, sum * 16 + Place(digits[0]))
  {
    hide IsHex, Place, HexDigit;
    HexDigitExactly(0, digits[0]);
    assert (digits + v)[1..] == digits[1..] + v;
  }

  lemma {:induction false} TrailingCrsDrop(s: string, k: nat)
    requires k < |s|
    requires TrailingCrs(s) <= |s| - k
    ensures TrailingCrs(s[k..]) == TrailingCrs(s)
  {
    var t := s[k..];
    if s[|s| - 1] == '\r' {
      assert t[..|t| - 1] == s[..|s| - 1][k..];
      if k < |s| - 1 {
        TrailingCrsDrop(s[..|s| - 1], k);
      } else {
        assert t[..|t| - 1] == [];
      }
    }
  }

  lemma {:induction false} TrailingCrsAll(s: string)
    ensures forall i :: |s| - TrailingCrs(s) <= i < |s| ==> s[i] == '\r'
    ensures TrailingCrs(s) < |s| ==> s[|s| - TrailingCrs(s) - 1] != '\r'
  {
    if s != [] && s[|s| - 1] == '\r' {
      TrailingCrsAll(s[..|s| - 1]);
    }
  }

  /**
    Where the server thinks an extension ends.  It finds the CRLF that really ends it exactly when
    the extension's trailing CRs pair up and it is short enough: a CR swallows the byte after it, so
    an odd run of trailing CRs hides the CR of the closing CRLF.
  */
  lemma {:induction false} ExtensionFoundExactly(text: string, v: string, count: nat)
    requires NoCrLf(text)
    ensures SkipExtension(text + (CRLF + v), count) == At(0, '\n', v)
        <==> TrailingCrs(text) % 2 == 0 && count + |text| < 4999
    decreases |text|
  {
    if count >= MAX_CHUNK_EXTENSION {
    } else if text == [] {
      SkipExtensionEnd(v, count);
    } else if text[0] != '\r' {
      SkipExtensionPlain(text, v, count);
      ExtensionFoundExactly(text[1..], v, count + 1);
      TrailingCrsFrom(text, 1);
    } else if |text| == 1 {
      SkipExtensionHidden(text, v, count);
      TrailingCrsOfRun(text);
    } else {
      SkipExtensionPair(text, v, count);
      ExtensionFoundExactly(text[2..], v, count + 2);
      TrailingCrsFrom(text, 2);
    }
  }

  lemma SkipExtensionEnd(v: string, count: nat)
    requires count < MAX_CHUNK_EXTENSION
    ensures SkipExtension([] + (CRLF + v), count)
      == if count + 1 < MAX_CHUNK_EXTENSION then At(0, '\n', v) else Malformed
  {
    assert [] + (CRLF + v) == CRLF + v;
    assert (CRLF + v)[2..] == v;
  }

  lemma SkipExtensionPlain(text: string, v: string, count: nat)
    requires text != [] && text[0] != '\r' && count < MAX_CHUNK_EXTENSION
    ensures SkipExtension(text + (CRLF + v), count) == SkipExtension(text[1..] + (CRLF + v), count + 1)
  {
    assert (text + (CRLF + v))[1..] == text[1..] + (CRLF + v);
  }

  lemma SkipExtensionPair(text: string, v: string, count: nat)
    requires |text| >= 2 && text[0] == '\r' && text[1] != '\n' && count < MAX_CHUNK_EXTENSION
    ensures SkipExtension(text + (CRLF + v), count) == SkipExtension(text[2..] + (CRLF + v), count + 2)
  {
    assert (text + (CRLF + v))[2..] == text[2..] + (CRLF + v);
  }

  /** A CR just before the closing CRLF hides it: the end, if one is found, lies strictly later. */
  lemma SkipExtensionHidden(text: string, v: string, count: nat)
    requires text == ['\r'] && count < MAX_CHUNK_EXTENSION
    ensures SkipExtension(text + (CRLF + v), count) != At(0, '\n', v)
  {
    var w := text + (CRLF + v);
    assert w[2..] == ['\n'] + v;
    assert (['\n'] + v)[1..] == v;
  }

  /** Dropping one byte that is not a CR, or a CR and the byte after it, keeps the parity. */
  lemma {:induction false} TrailingCrsFrom(s: string, k: nat)
    requires 1 <= k <= 2 && k <= |s|
    requires if k == 1 then s[0] != '\r' else s[0] == '\r'
    ensures TrailingCrs(s[k..]) % 2 == TrailingCrs(s) % 2
  {
    TrailingCrsAll(s);
    var n := TrailingCrs(s);
    if n <= |s| - k && k < |s| {
      TrailingCrsDrop(s, k);
    } else if k == 1 {
      assert s[1..] == [] && n == 0;
    } else {
      TrailingCrsOfRun(s);
      TrailingCrsOfRun(s[2..]);
    }
  }

  lemma {:induction false} TrailingCrsOfRun(s: string)
    ensures (forall i :: 0 <= i < |s| ==> s[i] == '\r') ==> TrailingCrs(s) == |s|
  {
    if s != [] {
      TrailingCrsOfRun(s[..|s| - 1]);
    }
  }

  lemma ParseRenderedSizeLine(digits: string, ext: Extension, v: string)
    requires AllHex(digits) && ExtensionFits(ext) && HexValue(digits, 0) <= DWORD_MAX
    ensures ParseSizeLine(RenderSizeLine(digits, ext) + v) == At(HexValue(digits, 0), '\n', v)
  {
    hide HexValue, ParseSize, SkipExtension, TrailingCrs, IsHex, AllHex;
    var w := RenderSizeLine(digits, ext) + v;
    match ext
    case NoExtension =>
      assert w == digits + (['\r'] + (['\n'] + v));
      ParseSizeOfDigits(digits, '\r', ['\n'] + v, 0);
    case Extension(text) =>
      assert w == digits + ([';'] + (text + (CRLF + v)));
      ParseSizeOfDigits(digits, ';', text + (CRLF + v), 0);
      ExtensionFoundExactly(text, v, 0);
  }

  lemma ParseRenderedHeader(digits: string, ext: Extension, v: string, trailer: bool)
    requires AllHex(digits) && ExtensionFits(ext) && HexValue(digits, 0) <= DWORD_MAX
    ensures ParseHeader((if trailer then CRLF else []) + RenderSizeLine(digits, ext) + v, trailer)
         == At(HexValue(digits, 0), '\n', v)
  {
    hide HexValue, ParseSizeLine, RenderSizeLine, ExtensionFits;
    var line := RenderSizeLine(digits, ext);
    ParseRenderedSizeLine(digits, ext, v);
    if trailer {
      var w := CRLF + line + v;
      assert w[1..][1..] == line + v;
    } else {
      assert [] + line + v == line + v;
    }
  }

  /** The number of chunks in front of the first one that is taken for the end of the body. */
  function Kept(cs: seq<Chunk>, reach: Reach): (n: nat)
    ensures n <= |cs|
  {
    if cs == [] then 0
    else
      var at := reach.Past(|RenderSizeLine(cs[0].digits, cs[0].ext)|, 0);
      if |cs[0].data| == END_OF_BODY && at == BEYOND then 0
      else 1 + Kept(cs[1..], at.Past(|cs[0].data| + |CRLF|, |cs[0].data|))
  }

  /**
    The decoder recovers the data of every well-formed body up to the first chunk it takes for the
    end, whatever follows; the bytes after the last chunk's header (a trailer) are not looked at.
  */
  lemma {:induction false} DecodeRendered(b: Body, v: string, trailer: bool, reach: Reach)
    requires WellFormed(b)
    ensures var lead := if trailer then CRLF else [];
      Decode(lead + Render(b) + v, trailer, reach)
        == Decoded(Payload(b.chunks[..Kept(b.chunks, reach.Past(|lead|, 0))]), Complete)
    decreases |b.chunks|
  {
    hide Decode, ParseHeader, RenderChunks, RenderSizeLine, WellFormed, AllHex, HexValue, ExtensionFits;
    var lead := if trailer then CRLF else [];
    if b.chunks == [] {
      DecodeLastChunk(b, v, trailer, reach);
    } else {
      var c, tail := b.chunks[0], Body(b.chunks[1..], b.lastDigits, b.lastExt);
      FirstIsWellFormed(b);
      var line := RenderSizeLine(c.digits, c.ext);
      var after := CRLF + Render(tail) + v;
      var start := reach.Past(|lead|, 0);
      var at := start.Past(|line|, 0);
      RenderFirstChunk(b, v, lead);
      ParseRenderedHeader(c.digits, c.ext, c.data + after, trailer);
      assert reach.Past(|lead + line|, 0) == at;
      DecodeFirstChunk(lead + Render(b) + v, trailer, c.data, after, reach, at);
      if !(|c.data| == END_OF_BODY && at == BEYOND) {
        DecodeRendered(tail, v, true, at.Past(|c.data|, |c.data|));
        assert at.Past(|c.data|, |c.data|).Past(2, 0) == at.Past(|c.data| + 2, |c.data|);
        PayloadOfFirst(b.chunks, Kept(b.chunks, start));
      }
    }
  }

  lemma FirstIsWellFormed(b: Body)
    requires WellFormed(b) && b.chunks != []
    ensures WellFormedChunk(b.chunks[0]) && WellFormed(Body(b.chunks[1..], b.lastDigits, b.lastExt))
  {
    hide WellFormedChunk, AllHex, HexValue, ExtensionFits;
    assert forall i :: 0 <= i < |b.chunks| - 1 ==> b.chunks[1..][i] == b.chunks[i + 1];
  }

  lemma PayloadOfFirst(cs: seq<Chunk>, n: nat)
    requires 0 < n <= |cs|
    ensures Payload(cs[..n]) == cs[0].data + Payload(cs[1..][..n - 1])
  {
    assert cs[..n][1..] == cs[1..][..n - 1];
  }

  lemma DecodeLastChunk(b: Body, v: string, trailer: bool, reach: Reach)
    requires WellFormed(b) && b.chunks == []
    ensures Decode((if trailer then CRLF else []) + Render(b) + v, trailer, reach) == Decoded([], Complete)
  {
    hide ParseHeader;
    assert Render(b) == RenderSizeLine(b.lastDigits, b.lastExt);
    ParseRenderedHeader(b.lastDigits, b.lastExt, v, trailer);
  }

  lemma RenderFirstChunk(b: Body, v: string, lead: string)
    requires b.chunks != []
    ensures var c, tail := b.chunks[0], Body(b.chunks[1..], b.lastDigits, b.lastExt);
            lead + Render(b) + v == lead + RenderSizeLine(c.digits, c.ext) + (c.data + (CRLF + Render(tail) + v))
  {
    var c, tail := b.chunks[0], Body(b.chunks[1..], b.lastDigits, b.lastExt);
    var line := RenderSizeLine(c.digits, c.ext);
    assert Render(b) == line + c.data + CRLF + Render(tail);
  }

  lemma DecodeFirstChunk(w: string, trailer: bool, data: string, after: string, reach: Reach, at: Reach)
    requires ParseHeader(w, trailer) == At(|data|, '\n', data + after)
    requires 1 <= |data| && at == reach.Past(|w| - |data + after|, 0)
    ensures Decode(w, trailer, reach) ==
      if |data| == END_OF_BODY && at == BEYOND then Decoded([], Complete)
      else Decode(after, true, at.Past(|data|, |data|)).Prefixed(data)
  {
    hide ParseHeader, Decode;
    DecodeHeader(w, trailer, reach);
    assert (data + after)[|data|..] == after;
    assert (data + after)[..|data|] == data;
    assert Undelivered(|data|, data + after, at) == Decode(after, true, at.Past(|data|, |data|)).Prefixed(data);
  }

  // ---------- The one size the server can lose ----------

  /**
    Chunk i has 0xFFFFFFFF bytes, none of which came along with the request, and the initial read has
    as much of the body as it wants before it gets there.
  */
  predicate Lost(cs: seq<Chunk>, reach: Reach, i: nat)
    requires i < |cs|
  {
    && |cs[i].data| == END_OF_BODY
    && reach.hand <= |RenderChunks(cs[..i])| + |RenderSizeLine(cs[i].digits, cs[i].ext)|
    && reach.room <= |Payload(cs[..i])|
  }

  lemma {:induction false} LostBehindFirst(cs: seq<Chunk>, reach: Reach, i: nat)
    requires 0 < i < |cs|
    ensures var c := cs[0];
      Lost(cs, reach, i) <==>
      Lost(cs[1..], reach.Past(|RenderSizeLine(c.digits, c.ext)|, 0).Past(|c.data| + |CRLF|, |c.data|), i - 1)
  {
    var first := RenderSizeLine(cs[0].digits, cs[0].ext) + cs[0].data + CRLF;
    assert cs[..i][1..] == cs[1..][..i - 1];
    assert RenderChunks(cs[..i]) == first + RenderChunks(cs[1..][..i - 1]);
    assert Payload(cs[..i]) == cs[0].data + Payload(cs[1..][..i - 1]);
  }

  /** The decoder stops early exactly at the first lost chunk. */
  lemma {:induction false} KeptUntilLost(cs: seq<Chunk>, reach: Reach)
    ensures var n := Kept(cs, reach);
      && (forall i :: 0 <= i < n ==> !Lost(cs, reach, i))
      && (n < |cs| ==> Lost(cs, reach, n))
  {
    hide RenderSizeLine;
    if cs != [] {
      var c, n := cs[0], Kept(cs, reach);
      var rest := reach.Past(|RenderSizeLine(c.digits, c.ext)|, 0).Past(|c.data| + |CRLF|, |c.data|);
      assert cs[..0] == [];
      assert Lost(cs, reach, 0) <==> n == 0;
      if n > 0 {
        KeptUntilLost(cs[1..], rest);
        forall i | 0 < i <= n && i < |cs| ensures Lost(cs, reach, i) <==> i == n {
          LostBehindFirst(cs, reach, i);
        }
      }
    }
  }

  lemma {:induction false} PayloadOfSome(cs: seq<Chunk>, n: nat)
    requires n <= |cs| && (forall i :: 0 <= i < |cs| ==> cs[i].data != [])
    ensures Payload(cs[..n]) <= Payload(cs)
    ensures Payload(cs[..n]) == Payload(cs) <==> n == |cs|
  {
    if n == 0 {
      assert cs[..0] == [];
    } else {
      PayloadOfFirst(cs, n);
      PayloadOfSome(cs[1..], n - 1);
    }
  }

  lemma ChunksHaveData(b: Body)
    requires WellFormed(b)
    ensures forall i :: 0 <= i < |b.chunks| ==> b.chunks[i].data != []
  {
    hide AllHex, HexValue, ExtensionFits;
    forall i | 0 <= i < |b.chunks| ensures b.chunks[i].data != [] {
      assert WellFormedChunk(b.chunks[i]);
    }
  }

  /**
    The body is recovered in full if and only if no chunk is lost: each chunk of 0xFFFFFFFF bytes has
    some of them in the buffer when the initial read starts, or fewer bytes of the body in front of it
    than the initial read wants.
  */
  lemma {:induction false} RecoveredExactly(b: Body, v: string, hand: nat, postReadSize: nat)
    requires WellFormed(b)
    ensures var d, reach := Decode(Render(b) + v, false, Reach(hand, postReadSize)), Reach(hand, postReadSize);
      && d.end == Complete && d.bytes <= Payload(b.chunks)
      && (d.bytes == Payload(b.chunks) <==> forall i :: 0 <= i < |b.chunks| ==> !Lost(b.chunks, reach, i))
  {
    hide Decode, Render, Lost, Kept, WellFormed, Payload;
    var reach := Reach(hand, postReadSize);
    assert [] + Render(b) + v == Render(b) + v && reach.Past(0, 0) == reach;
    DecodeRendered(b, v, false, reach);
    KeptUntilLost(b.chunks, reach);
    ChunksHaveData(b);
    PayloadOfSome(b.chunks, Kept(b.chunks, reach));
  }

  /**
    Data sent in any pieces of less than 4 GB - 1, with the sizes in hexadecimal of either case, comes
    back whole, however much of it the initial read has.
  */
  lemma {:induction false} PiecesComeBack(pieces: seq<string>, upper: bool, v: string, reach: Reach)
    requires forall i :: 0 <= i < |pieces| ==> 1 <= |pieces[i]| < 0xFFFF_FFFF
    ensures WellFormed(Coded(pieces, upper))
    ensures Decode(Render(Coded(pieces, upper)) + v, false, reach) == Decoded(Concatenated(pieces), Complete)
  {
    hide Decode, Render, Lost, Hex, HexValue, AllHex;
    var b := Coded(pieces, upper);
    forall i | 0 <= i < |b.chunks| ensures WellFormedChunk(b.chunks[i]) {
      HexRoundTrip(|pieces[i]|, upper);
    }
    HexRoundTrip(0, upper);
    PayloadOfPieces(pieces, upper);
    RecoveredExactly(b, v, reach.hand, reach.room);
    forall i | 0 <= i < |b.chunks| ensures !Lost(b.chunks, reach, i) {
      NotLost(b.chunks, reach, i);
    }
  }

  lemma NotLost(cs: seq<Chunk>, reach: Reach, i: nat)
    requires i < |cs| && |cs[i].data| != 0xFFFF_FFFF
    ensures !Lost(cs, reach, i)
  {
  }

  lemma {:induction false} PayloadOfPieces(pieces: seq<string>, upper: bool)
    ensures Payload(CodedChunks(pieces, upper)) == Concatenated(pieces)
  {
    if pieces != [] {
      PayloadOfPieces(pieces[1..], upper);
      assert CodedChunks(pieces, upper)[1..] == CodedChunks(pieces[1..], upper);
    }
  }

  function Pow16(n: nat): nat { if n == 0 then 1 else 16 * Pow16(n - 1) }

  lemma PlaceOfF()
    ensures IsHex('F') && Place('F') == 15
  {
    hide IsHex, Place;
    PlaceOf(15, true);
    assert UPPER[15] == 'F';
  }

  lemma {:induction false} HexValueOfFs(d: string, sum: nat)
    requires forall i :: 0 <= i < |d| ==> d[i] == 'F'
    ensures AllHex(d) && HexValue(d, sum) == (sum + 1) * Pow16(|d|) - 1
  {
    hide IsHex, Place;
    PlaceOfF();
    if d != [] {
      HexValueOfFs(d[1..], sum * 16 + 15);
    }
  }

  /**
    Both ways of losing such a chunk, behind a chunk of three bytes: the initial read has the three
    bytes and the header, and wants no more; or it wants two, and the extension's read of the third
    byte parses the header.  If it wants a fourth byte, the chunk is kept.
  */
  lemma LargestChunkLost(largest: string, v: string)
    requires |largest| == END_OF_BODY
    ensures var b := Body([Chunk("3", NoExtension, "abc"), Chunk("FFFFFFFF", NoExtension, largest)], "0", NoExtension);
      && WellFormed(b)
      && Decode(Render(b) + v, false, Reach(18, 3)) == Decoded("abc", Complete)
      && Decode(Render(b) + v, false, Reach(0, 2)) == Decoded("abc", Complete)
      && Decode(Render(b) + v, false, Reach(0, 4)) == Decoded("abc" + largest, Complete)
  {
    hide Decode, Render, WellFormed, Payload;
    var b := LargestBody(largest);
    LargestIsWellFormed(largest);
    LargestIsKept(largest, Reach(18, 3));
    LargestIsKept(largest, Reach(0, 2));
    LargestIsKept(largest, Reach(0, 4));
    assert [] + Render(b) + v == Render(b) + v;
    DecodeRendered(b, v, false, Reach(18, 3));
    DecodeRendered(b, v, false, Reach(0, 2));
    DecodeRendered(b, v, false, Reach(0, 4));
  }

  function LargestBody(largest: string): Body {
    Body([Chunk("3", NoExtension, "abc"), Chunk("FFFFFFFF", NoExtension, largest)], "0", NoExtension)
  }

  lemma LargestIsWellFormed(largest: string)
    requires |largest| == END_OF_BODY
    ensures WellFormed(LargestBody(largest))
  {
    hide HexValue, AllHex;
    HexValueOfFs("FFFFFFFF", 0);
    assert Pow16(8) == 0x1_0000_0000;
    HexRoundTrip(3, true);
    HexRoundTrip(0, true);
    assert Hex(3, true) == "3" && Hex(0, true) == "0";
  }

  lemma LargestIsKept(largest: string, reach: Reach)
    requires |largest| == END_OF_BODY
    ensures var cs := LargestBody(largest).chunks;
      Payload(cs[..Kept(cs, reach)]) == if reach.hand <= 18 && reach.room <= 3 then "abc" else "abc" + largest
  {
    hide RenderSizeLine, Payload, Kept;
    var cs := LargestBody(largest).chunks;
    LargestLines();
    KeptOfTwo(cs[0], cs[1], reach);
    assert cs == [cs[0], cs[1]] && cs[..1] == [cs[0]] && cs[..2] == cs;
    PayloadOfTwo(cs[0], cs[1]);
  }

  /** The second of two chunks, behind 18 bytes with three bytes of data. */
  lemma KeptOfTwo(a: Chunk, b: Chunk, reach: Reach)
    requires |RenderSizeLine(a.digits, a.ext)| == 3 && |a.data| == 3
    requires |RenderSizeLine(b.digits, b.ext)| == 10 && |b.data| == END_OF_BODY
    ensures Kept([a, b], reach) == if reach.hand <= 18 && reach.room <= 3 then 1 else 2
  {
    hide RenderSizeLine;
    assert [a, b][1..] == [b] && [b][1..] == [];
    var at := reach.Past(3, 0).Past(5, 3);
    assert Kept([b], at) == if at.Past(10, 0) == BEYOND then 0 else 1;
  }

  lemma LargestLines()
    ensures |RenderSizeLine("3", NoExtension)| == 3 && |RenderSizeLine("FFFFFFFF", NoExtension)| == 10
  {
  }

  lemma PayloadOfTwo(a: Chunk, b: Chunk)
    ensures Payload([a]) == a.data && Payload([a, b]) == a.data + b.data
  {
    assert [a][1..] == [] && [a, b][1..] == [b] && [b][1..] == [];
    assert a.data + [] == a.data && b.data + [] == b.data;
  }
}
