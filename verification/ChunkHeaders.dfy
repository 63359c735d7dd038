/**
  Chunk headers in any stream, well formed or not: what the server takes for a header, and when it waits
  for more or gives up.
*/
module ChunkHeaders {
  import opened CStrings
  import opened ChunkCoding

  // ---------- Extensions ----------

  /** An extension as the server swallows it: a CR goes together with the byte behind it, which is no LF. */
  predicate Swallowed(text: string)
    decreases |text|
  {
    || text == ""
    || (text[0] != '\r' && Swallowed(text[1..]))
    || (|text| >= 2 && text[0] == '\r' && text[1] != '\n' && Swallowed(text[2..]))
  }

  /** v is swallowed text and then `rest`, where swallowing stops. */
  predicate StopsAt(v: string, count: nat, text: string, rest: string) {
    v == text + rest && Swallowed(text) && Stop(rest, count + |text|)
  }

  /** The limit is reached, or the stream ends, perhaps in a line end, or there is a line end. */
  predicate Stop(rest: string, count: nat) {
    count >= 5000 || rest == "" || rest == "\r" || (|rest| >= 2 && rest[..2] == "\r\n")
  }

  lemma SkipStep(v: string, count: nat)
    ensures Stop(v, count) ==> (SkipExtension(v, count) ==
      if count >= 5000 then Malformed
      else if v == "" || v == "\r" then Truncated
      else if count + 1 >= 5000 then Malformed else At(0, '\n', v[2..]))
    ensures !Stop(v, count) ==> v != "" && (v[0] == '\r' ==> |v| >= 2 && v[1] != '\n')
    ensures !Stop(v, count) && v[0] != '\r' ==> SkipExtension(v, count) == SkipExtension(v[1..], count + 1)
    ensures !Stop(v, count) && v[0] == '\r' ==> SkipExtension(v, count) == SkipExtension(v[2..], count + 2)
  {
    if |v| >= 2 {
      assert v[..2][0] == v[0] && v[..2][1] == v[1];
      if v[0] == '\r' && v[1] == '\n' {
        assert v[..2] == "\r\n";
      }
    } else if |v| == 1 && v[0] == '\r' {
      assert v == "\r";
    }
  }

  lemma SwallowedMore(text: string, k: nat)
    requires k <= |text| && Swallowed(text[k..])
    requires (k == 1 && text[0] != '\r') || (k == 2 && text[0] == '\r' && text[1] != '\n')
    ensures Swallowed(text)
  {
  }

  /** Every stream is swallowed up to where it stops. */
  lemma {:induction false} StopFound(v: string, count: nat) returns (text: string, rest: string)
    ensures StopsAt(v, count, text, rest)
    decreases |v|
  {
    hide Stop, Swallowed;
    SkipStep(v, count);
    if Stop(v, count) {
      text, rest := "", v;
      assert Swallowed("") by { NothingSwallowed(); }
      assert "" + v == v;
    } else {
      var k := if v[0] != '\r' then 1 else 2;
      var more;
      more, rest := StopFound(v[k..], count + k);
      text := v[..k] + more;
      assert text[k..] == more && v == v[..k] + v[k..];
      SwallowedMore(text, k);
    }
  }

  lemma NothingSwallowed()
    ensures Swallowed("")
  {
  }

  /** Where the stream stops, the reading stops. */
  lemma {:induction false} SkipStops(text: string, rest: string, count: nat)
    requires Swallowed(text) && Stop(rest, count + |text|)
    ensures count + |text| <= 5000 ==> SkipExtension(text + rest, count) == SkipExtension(rest, count + |text|)
    ensures count + |text| > 5000 ==> SkipExtension(text + rest, count) == Malformed
    decreases |text|
  {
    hide Stop;
    var v := text + rest;
    if text == "" {
      assert v == rest;
      if count > 5000 {
        TooMuch(v, count);
      }
    } else if count >= 5000 {
      TooMuch(v, count);
    } else {
      var k := if text[0] != '\r' then 1 else 2;
      assert v[k..] == text[k..] + rest;
      SkipSwallows(v, k, count);
      SkipStops(text[k..], rest, count + k);
    }
  }

  lemma TooMuch(v: string, count: nat)
    requires count >= 5000
    ensures SkipExtension(v, count) == Malformed
  {
  }

  lemma SkipSwallows(v: string, k: nat, count: nat)
    requires count < 5000 && k <= |v| && ((k == 1 && v[0] != '\r') || (k == 2 && v[0] == '\r' && v[1] != '\n'))
    ensures SkipExtension(v, count) == SkipExtension(v[k..], count + k)
  {
  }

  /** The extension in any stream, from behind its semicolon on. */
  lemma ExtensionExactly(v: string, text: string, rest: string)
    ensures SkipExtension(v, 0) == At(0, '\n', rest)
      <==> exists t :: v == t + (CRLF + rest) && Swallowed(t) && |t| < 4999
    ensures var r := SkipExtension(v, 0); r.At? ==> r == At(0, '\n', r.rest)
    ensures SkipExtension(v, 0) == Truncated
      <==> exists t :: (v == t || v == t + "\r") && Swallowed(t) && |t| < 5000
  {
    hide SkipExtension, Swallowed;
    var t, r := StopFound(v, 0);
    ReadAtStop(v, t, r);
    if r == "" {
      assert v == t;
    }
    if |r| >= 2 && r[..2] == "\r\n" {
      assert r == CRLF + r[2..];
    }
    forall t' | v == t' + (CRLF + rest) && Swallowed(t') && |t'| < 4999
      ensures SkipExtension(v, 0) == At(0, '\n', rest)
    {
      var w := CRLF + rest;
      assert w[..2] == "\r\n" && w[2..] == rest;
      ReadAtStop(v, t', w);
    }
    forall t' | (v == t' || v == t' + "\r") && Swallowed(t') && |t'| < 5000 ensures SkipExtension(v, 0) == Truncated {
      var w := if v == t' then "" else "\r";
      assert v == t' + w;
      ReadAtStop(v, t', w);
    }
  }

  lemma ReadAtStop(v: string, text: string, rest: string)
    requires StopsAt(v, 0, text, rest)
    ensures SkipExtension(v, 0) ==
      if |text| >= 5000 then Malformed
      else if rest == "" || rest == "\r" then Truncated
      else if |text| >= 4999 then Malformed else At(0, '\n', rest[2..])
  {
    hide SkipExtension, Swallowed;
    SkipStops(text, rest, 0);
    SkipStep(rest, |text|);
  }

  // ---------- Sizes ----------

  /** v is digits and then `rest`, which does not begin with one. */
  predicate DigitsIn(v: string, digits: string, rest: string) {
    v == digits + rest && AllHex(digits) && (rest != "" ==> !IsHex(rest[0]))
  }

  lemma {:induction false} DigitsFound(v: string) returns (digits: string, rest: string)
    ensures DigitsIn(v, digits, rest)
  {
    hide IsHex;
    if v == "" || !IsHex(v[0]) {
      digits, rest := "", v;
      assert "" + v == v;
    } else {
      digits, rest := DigitsFound(v[1..]);
      digits := [v[0]] + digits;
      assert v == [v[0]] + v[1..];
    }
  }

  /** What the reading of a size comes to, when the digits at the front are known. */
  lemma {:induction false} SizeOfDigits(digits: string, rest: string, sum: nat)
    requires AllHex(digits) && (rest != "" ==> !IsHex(rest[0])) && sum <= DWORD_MAX
    ensures ParseSize(digits + rest, sum) ==
      if HexValue(digits, sum) > DWORD_MAX then Malformed
      else if rest == "" then Truncated
      else if rest[0] == ';' || rest[0] == '\r' then At(HexValue(digits, sum), rest[0], rest[1..])
      else Malformed
  {
    hide IsHex, Place, HexDigit;
    if digits == "" {
      assert digits + rest == rest;
      SizeEnds(rest, sum);
    } else {
      var d := digits[0];
      var sum' := sum * 16 + Place(d);
      assert HexValue(digits, sum) == HexValue(digits[1..], sum');
      HexValueGrows(digits[1..], sum');
      if sum' <= DWORD_MAX {
        ParseSizeDigit(digits, rest, sum);
        SizeOfDigits(digits[1..], rest, sum');
      } else {
        SizeTooLarge(digits + rest, sum);
      }
    }
  }

  lemma SizeEnds(rest: string, sum: nat)
    requires rest != "" ==> !IsHex(rest[0])
    ensures ParseSize(rest, sum) ==
      if rest == "" then Truncated
      else if rest[0] == ';' || rest[0] == '\r' then At(sum, rest[0], rest[1..])
      else Malformed
  {
    hide IsHex, Place, HexDigit;
    if rest != "" {
      HexDigitExactly(0, rest[0]);
    }
  }

  lemma SizeTooLarge(v: string, sum: nat)
    requires v != "" && IsHex(v[0]) && sum * 16 + Place(v[0]) > DWORD_MAX
    ensures ParseSize(v, sum) == Malformed
  {
    hide IsHex, Place, HexDigit;
    HexDigitExactly(0, v[0]);
  }

  // ---------- Headers ----------

  /** A size line as the server takes it from a stream, in front of `rest`. */
  predicate LineIn(v: string, digits: string, ext: Extension, rest: string) {
    && v == RenderSizeLine(digits, ext) + rest
    && AllHex(digits) && HexValue(digits, 0) <= 0xFFFF_FFFF
    && (ext.Extension? ==> Swallowed(ext.text) && |ext.text| < 4999)
  }

  /** A stream that ends within a size line: in its size, in its extension, or in its line end. */
  predicate LineCut(v: string, digits: string, ext: Extension, part: string) {
    && v == digits + part && AllHex(digits) && HexValue(digits, 0) <= 0xFFFF_FFFF
    && match ext
       case NoExtension => part == "" || part == "\r"
       case Extension(text) =>
         (part == [';'] + text || part == [';'] + (text + "\r")) && Swallowed(text) && |text| < 5000
  }

  /** What the reading of a size line comes to, when the digits at the front are known. */
  lemma LineOfDigits(v: string, digits: string, tail: string)
    requires DigitsIn(v, digits, tail)
    ensures ParseSizeLine(v) ==
      if HexValue(digits, 0) > DWORD_MAX then Malformed
      else if tail == "" then Truncated
      else if tail[0] == '\r' then LineEnd(HexValue(digits, 0), tail[1..])
      else if tail[0] == ';' then Sized(HexValue(digits, 0), SkipExtension(tail[1..], 0))
      else Malformed
  {
    hide IsHex, AllHex, HexValue, ParseSize, SkipExtension;
    SizeOfDigits(digits, tail, 0);
  }

  function LineEnd(size: nat, v: string): Parsed {
    if v == "" then Truncated else if v[0] == '\n' then At(size, '\n', v[1..]) else Malformed
  }

  function Sized(size: nat, e: Parsed): Parsed {
    if e.At? then At(size, '\n', e.rest) else e
  }

  lemma SeparatorsAreNoDigits()
    ensures !IsHex(';') && !IsHex('\r')
  {
  }

  lemma LineParses(v: string, digits: string, ext: Extension, rest: string)
    requires LineIn(v, digits, ext, rest)
    ensures ParseSizeLine(v) == At(HexValue(digits, 0), '\n', rest)
  {
    hide IsHex, HexValue, SkipExtension, Swallowed, ParseSizeLine, AllHex;
    SeparatorsAreNoDigits();
    match ext
    case NoExtension =>
      Regroup(digits, CRLF, rest);
      LineOfDigits(v, digits, CRLF + rest);
    case Extension(text) =>
      var w := text + (CRLF + rest);
      assert v == digits + ([';'] + w);
      LineOfDigits(v, digits, [';'] + w);
      assert ([';'] + w)[1..] == w;
      ExtensionExactly(w, text, rest);
  }

  lemma LineCutParses(v: string, digits: string, ext: Extension, part: string)
    requires LineCut(v, digits, ext, part)
    ensures ParseSizeLine(v) == Truncated
  {
    hide IsHex, HexValue, SkipExtension, Swallowed, ParseSizeLine, AllHex;
    SeparatorsAreNoDigits();
    LineOfDigits(v, digits, part);
    if ext.Extension? {
      assert part[1..] == if part == [';'] + ext.text then ext.text else ext.text + "\r";
      ExtensionExactly(part[1..], ext.text, "");
    }
  }

  lemma LineFound(v: string, size: nat, rest: string) returns (digits: string, ext: Extension)
    requires ParseSizeLine(v) == At(size, '\n', rest)
    ensures LineIn(v, digits, ext, rest) && HexValue(digits, 0) == size
  {
    hide IsHex, HexValue, SkipExtension, Swallowed, ParseSizeLine, AllHex;
    var tail;
    digits, tail := DigitsFound(v);
    LineOfDigits(v, digits, tail);
    if tail[0] == '\r' {
      ext := NoExtension;
      assert tail == CRLF + rest;
      Regroup(digits, CRLF, rest);
    } else {
      ExtensionExactly(tail[1..], "", rest);
      var t :| tail[1..] == t + (CRLF + rest) && Swallowed(t) && |t| < 4999;
      ext := Extension(t);
      ExtensionLine(v, digits, tail, t, rest);
    }
  }

  lemma ExtensionLine(v: string, digits: string, tail: string, text: string, rest: string)
    requires v == digits + tail && tail != "" && tail[0] == ';' && tail[1..] == text + (CRLF + rest)
    ensures v == RenderSizeLine(digits, Extension(text)) + rest
  {
    assert tail == [';'] + (text + (CRLF + rest));
    Regroup(digits, [';'], text + (CRLF + rest));
    Regroup(digits + [';'], text, CRLF + rest);
    Regroup(digits + [';'] + text, CRLF, rest);
  }

  lemma LineCutFound(v: string) returns (digits: string, ext: Extension, part: string)
    requires ParseSizeLine(v) == Truncated
    ensures LineCut(v, digits, ext, part)
  {
    hide IsHex, HexValue, SkipExtension, Swallowed, ParseSizeLine, AllHex;
    digits, part := DigitsFound(v);
    LineOfDigits(v, digits, part);
    ext := NoExtension;
    if part != "" && part[0] == ';' {
      ExtensionExactly(part[1..], "", "");
      var t :| (part[1..] == t || part[1..] == t + "\r") && Swallowed(t) && |t| < 5000;
      ext := Extension(t);
      assert part == [';'] + part[1..];
    } else if part != "" {
      assert part == "\r";
    }
  }

  /** A header as the server takes it from a stream, in front of `rest`. */
  predicate HeaderIn(v: string, trailer: bool, digits: string, ext: Extension, rest: string) {
    if trailer then |v| >= 2 && v[..2] == "\r\n" && LineIn(v[2..], digits, ext, rest) else LineIn(v, digits, ext, rest)
  }

  /** A stream that ends within a header. */
  ghost predicate HeaderCut(v: string, trailer: bool) {
    || (trailer && (v == "" || v == "\r"))
    || (trailer && |v| >= 2 && v[..2] == "\r\n" && exists digits, ext, part :: LineCut(v[2..], digits, ext, part))
    || (!trailer && exists digits, ext, part :: LineCut(v, digits, ext, part))
  }

  /** Size lines in any stream: what is taken for one, and when more is waited for; all else is refused. */
  lemma LineExactly(v: string, size: nat, rest: string)
    ensures ParseSizeLine(v) == At(size, '\n', rest)
      <==> exists digits, ext :: LineIn(v, digits, ext, rest) && HexValue(digits, 0) == size
    ensures ParseSizeLine(v) == Truncated <==> exists digits, ext, part :: LineCut(v, digits, ext, part)
  {
    hide ParseSizeLine, LineCut, HexValue, AllHex;
    if ParseSizeLine(v) == At(size, '\n', rest) {
      var digits, ext := LineFound(v, size, rest);
    }
    if ParseSizeLine(v) == Truncated {
      var digits, ext, part := LineCutFound(v);
    }
    forall digits, ext | LineIn(v, digits, ext, rest) ensures ParseSizeLine(v) == At(HexValue(digits, 0), '\n', rest) {
      LineParses(v, digits, ext, rest);
    }
    forall digits, ext, part | LineCut(v, digits, ext, part) ensures ParseSizeLine(v) == Truncated {
      LineCutParses(v, digits, ext, part);
    }
  }

  /**
    Headers in any stream.  A header is read if and only if the stream begins with the line end of the chunk
    before it, if there is one, digits of a value of 32 bits, perhaps a semicolon and a swallowed extension,
    and a line end.  More is waited for if and only if the stream ends within these.
  */
  lemma HeaderExactly(v: string, trailer: bool, size: nat, rest: string)
    ensures ParseHeader(v, trailer) == At(size, '\n', rest)
      <==> exists digits, ext :: HeaderIn(v, trailer, digits, ext, rest) && HexValue(digits, 0) == size
    ensures ParseHeader(v, trailer) == Truncated <==> HeaderCut(v, trailer)
  {
    hide LineIn, LineCut, ParseSizeLine, HexValue, AllHex;
    if !trailer {
      LineExactly(v, size, rest);
      forall digits, ext ensures HeaderIn(v, trailer, digits, ext, rest) <==> LineIn(v, digits, ext, rest) {
      }
    } else {
      BehindLineEnd(v);
      if |v| >= 2 && v[..2] == "\r\n" {
        LineExactly(v[2..], size, rest);
        forall digits, ext ensures HeaderIn(v, trailer, digits, ext, rest) <==> LineIn(v[2..], digits, ext, rest) {
        }
      }
    }
  }

  lemma BehindLineEnd(v: string)
    ensures ParseHeader(v, true) ==
      if |v| >= 2 && v[..2] == "\r\n" then ParseSizeLine(v[2..])
      else if v == "" || v == "\r" then Truncated else Malformed
  {
    hide ParseSizeLine;
    if |v| >= 2 {
      assert v[..2][0] == v[0] && v[..2][1] == v[1];
      assert v[1..][1..] == v[2..];
      if v[0] == '\r' && v[1] == '\n' {
        assert v[..2] == "\r\n";
      }
    } else if |v| == 1 && v[0] == '\r' {
      assert v == "\r";
    }
  }
}
