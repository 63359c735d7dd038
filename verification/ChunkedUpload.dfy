/**
  The server's chunk decoder: it strips chunk headers in place, first from the bytes that came with
  the request (ParseInitialChunkedUpload), then from those an extension reads with buffers of its own
  (ReadClientChunked).  Both are proved against the decoder of module ChunkCoding.
*/
module ChunkedUpload {
  import opened CStrings
  import opened Wire
  import opened HeaderBlock
  import opened RequestBuffer
  import opened ChunkCoding

  class HttpRequest {
    const sock: Socket
    const buf: Buffer
    /** Undelivered bytes of the current chunk, or END_OF_BODY. */
    var bytesRemainingInChunk: nat

    constructor (sock: Socket, buf: Buffer)
      ensures this.sock == sock && this.buf == buf && bytesRemainingInChunk == 0
    {
      this.sock, this.buf := sock, buf;
      bytesRemainingInChunk := 0;
    }

    /** Reads some bytes straight into the caller's buffer; fails at the end of the stream or on a timeout. */
    method ReadClientNonChunked(pv: array<char>, at: nat, n: nat) returns (ok: bool, k: nat)
      requires buf.Valid() && at + n <= pv.Length && pv != buf.data
      modifies sock, buf`nextRequestBegin, pv
      ensures buf.Valid() && buf.nextRequestBegin == 0 && k <= n && k <= |old(sock.unread)|
      ensures ok <==> n > 0 && old(sock.unread) != []
      ensures ok <==> k > 0
      ensures sock.unread == old(sock.unread)[k..]
      ensures pv[..] == old(pv[..at]) + old(sock.unread)[..k] + old(pv[at + k..])
    {
      buf.nextRequestBegin := 0;
      var ready := sock.Select();
      if !ready {
        return false, 0;
      }
      var available := sock.Available();
      k := sock.Recv(pv, at, if available < n then available else n);
      ok := k != 0;
    }

    /**
      An extension reads up to n bytes of the body into its own buffer.  A read never passes the end
      of the current chunk; when it reaches it, the next chunk's header is taken off the wire too.
    */
    method ReadClientChunked(pv: array<char>, n: nat) returns (ok: bool, k: nat)
      requires buf.Valid() && pv != buf.data && n <= pv.Length
      requires 0 < bytesRemainingInChunk <= END_OF_BODY
      modifies this`bytesRemainingInChunk, sock, buf, buf.data, pv
      ensures buf.Valid() && buf.data == old(buf.data) && k <= n
      ensures old(bytesRemainingInChunk) == END_OF_BODY ==>
        ok && k == 0 && sock.unread == old(sock.unread) && bytesRemainingInChunk == END_OF_BODY
      ensures old(bytesRemainingInChunk) != END_OF_BODY && ok ==> 0 < k && 0 < bytesRemainingInChunk <= END_OF_BODY
      ensures ok ==>
        old(Pending(bytesRemainingInChunk, sock.unread))
          == Pending(bytesRemainingInChunk, sock.unread).Prefixed(pv[..k])
      ensures !ok && n > 0 ==> old(Pending(bytesRemainingInChunk, sock.unread)).end != Complete
      ensures !ok && n == 0 ==> sock.unread == old(sock.unread) && bytesRemainingInChunk == old(bytesRemainingInChunk)
    {
      hide Decode, Undelivered;
      if bytesRemainingInChunk == END_OF_BODY {
        assert pv[..0] == [];
        return true, 0;
      }
      ghost var before, unread := bytesRemainingInChunk, sock.unread;
      var read := if n < bytesRemainingInChunk then n else bytesRemainingInChunk;
      DataArrives(bytesRemainingInChunk, unread, BEYOND);
      ok, k := ReadClientNonChunked(pv, 0, read);
      if !ok {
        return;
      }
      DataTaken(before, unread, k, [], BEYOND);
      PrefixedByNothing(Undelivered(before, unread, BEYOND));
      assert [] + unread[..k] == pv[..k];
      if bytesRemainingInChunk > k {
        bytesRemainingInChunk := bytesRemainingInChunk - k;
        return;
      }
      NothingOfTheChunkLeft(sock.unread, pv[..k], BEYOND);
      ok := ReadNextHeader(pv, k);
    }

    /** The current chunk is read to its end: parse the header of the next one. */
    method ReadNextHeader(pv: array<char>, k: nat) returns (ok: bool)
      requires buf.Valid() && pv != buf.data && k <= pv.Length
      modifies this`bytesRemainingInChunk, sock, buf, buf.data
      ensures buf.Valid() && buf.data == old(buf.data)
      ensures ok ==> 0 < bytesRemainingInChunk <= END_OF_BODY
      ensures ok ==> Pending(bytesRemainingInChunk, sock.unread) == old(Decode(sock.unread, true, BEYOND))
      ensures !ok ==> old(Decode(sock.unread, true, BEYOND)).end != Complete
    {
      hide Decode, Undelivered, ParseHeader;
      // No byte behind the chunk's end is ever at hand, so there is nothing to move down, and no
      // second chunk to look for.
      var remaining := 0;
      var parser := new ChunkParser(this, null, pv, k, remaining);
      assert parser.View() == sock.unread;
      DecodeHeader(sock.unread, true, BEYOND);
      var swallow, size;
      ok, swallow, size := parser.ParseChunkHeader();
      if !ok {
        return;
      }
      assert swallow == 0 && parser.View() == sock.unread;
      bytesRemainingInChunk := size;
      if bytesRemainingInChunk == 0 {
        bytesRemainingInChunk := END_OF_BODY;
      } else {
        bytesRemainingInChunk := bytesRemainingInChunk - remaining;
      }
    }
  }

  class ChunkParser {
    /** The bytes at hand: chunk[start..start + bufferSize], of which nextOut are consumed. */
    var chunk: array<char>
    var start: nat
    var bufferSize: nat
    var nextOut: nat
    /** Whether the CRLF that ends the preceding chunk comes first. */
    var readTrailer: bool
    const request: HttpRequest
    /** The request's own buffer during the initial read; null for an extension's read. */
    const buffer: Buffer?

    ghost predicate Valid()
      reads this, chunk, request.buf, request.buf.data
    {
      && request.buf.Valid()
      && start + bufferSize <= chunk.Length && nextOut <= bufferSize
      && (if buffer == null then chunk != request.buf.data
          else
            && buffer == request.buf && chunk == buffer.data && chunk.Length != 0 && buffer.nextRequestBegin == 0
            && start == buffer.nextUnparsedChunk && start + bufferSize == buffer.nextIn)
    }

    /** The bytes that come next, at hand or not. */
    ghost function View(): string
      reads this, chunk, request.buf, request.buf.data, request.sock
      requires Valid()
    {
      chunk[start + nextOut..start + bufferSize] + request.sock.unread
    }

    constructor (request: HttpRequest, buffer: Buffer?, chunk: array<char>, start: nat, size: nat)
      requires request.buf.Valid() && start + size <= chunk.Length
      requires if buffer == null then chunk != request.buf.data
               else
                 && buffer == request.buf && chunk == buffer.data && chunk.Length != 0 && buffer.nextRequestBegin == 0
                 && start == buffer.nextUnparsedChunk && start + size == buffer.nextIn
      ensures Valid() && this.request == request && this.buffer == buffer && nextOut == 0
      ensures readTrailer <==> buffer == null
      ensures View() == chunk[start..start + size] + request.sock.unread
      ensures this.chunk == chunk && this.start == start && bufferSize == size
    {
      this.request, this.buffer := request, buffer;
      this.chunk, this.start, bufferSize, nextOut := chunk, start, size, 0;
      readTrailer := buffer == null;
    }

    /** At the end of the stream a read fails; RecvBody reports success when the peer has closed the connection. */
    predicate SeesEnd() {
      buffer == null || !request.sock.closes
    }

    /** What comes next, seen from the request's buffer. */
    lemma ViewOfBuffer()
      requires Valid() && buffer != null
      ensures View() == buffer.Held()[buffer.nextUnparsedChunk + nextOut..] + request.sock.unread
    {
      assert chunk[start + nextOut..start + bufferSize] == buffer.Held()[buffer.nextUnparsedChunk + nextOut..];
    }

    /** Moves on to the next stretch of bytes at hand. */
    method SetChunkHeader(chunk: array<char>, start: nat, size: nat)
      requires request.buf.Valid() && start + size <= chunk.Length
      requires if buffer == null then chunk != request.buf.data
               else
                 && buffer == request.buf && chunk == buffer.data && chunk.Length != 0 && buffer.nextRequestBegin == 0
                 && start == buffer.nextUnparsedChunk && start + size == buffer.nextIn
      modifies this
      ensures Valid() && nextOut == 0 && readTrailer == old(readTrailer)
      ensures this.chunk == chunk && this.start == start && bufferSize == size
      ensures View() == chunk[start..start + size] + request.sock.unread
    {
      this.chunk, this.start, bufferSize, nextOut := chunk, start, size, 0;
    }

    /** What every step of the parser keeps: bytes leave the front of View() only, and the buffer loses none. */
    twostate predicate Consumed()
      requires old(Valid())
      reads this, chunk, request.buf, request.buf.data, request.sock
    {
      && Valid()
      && |View()| <= |old(View())|
      && (if buffer == null then
            && chunk == old(chunk) && start == old(start) && bufferSize == old(bufferSize)
            && request.buf.data == old(request.buf.data)
          else
            && buffer.Held() + request.sock.unread == old(buffer.Held() + request.sock.unread)
            && buffer.nextOut == old(buffer.nextOut) && buffer.nextUnparsedChunk == old(buffer.nextUnparsedChunk)
            && buffer.nextIn >= old(buffer.nextIn) && (buffer.nextIn > old(buffer.nextIn) ==> nextOut == bufferSize)
            && (buffer.data == old(buffer.data) || fresh(buffer.data))
            && nextOut - old(nextOut) == |old(View())| - |View()|)
    }

    /** What is left of the request when the parser gives up. */
    twostate predicate Stopped()
      reads request.buf, request.buf.data
    {
      && request.buf.Valid()
      && (if buffer == null then request.buf.data == old(request.buf.data)
          else
            && request.buf.nextOut == old(request.buf.nextOut)
            && (request.buf.data == old(request.buf.data) || fresh(request.buf.data)))
    }

    /** The next byte: one at hand, or else one more from the network. */
    method GetNextChunkedChar() returns (ok: bool, c: char)
      requires Valid() && (View() != [] || SeesEnd())
      modifies this, request.buf, request.buf.data, request.sock
      ensures Stopped() && (ok ==> Consumed() && readTrailer == old(readTrailer))
      ensures ok <==> old(View()) != []
      ensures ok ==> c == old(View())[0] && View() == old(View())[1..]
    {
      if nextOut < bufferSize {
        c := chunk[start + nextOut];
        nextOut := nextOut + 1;
        return true, c;
      }
      if buffer == null {
        ok, c := ReadNextChar();
      } else {
        ok, c := RecvNextChar();
      }
    }

    method ReadNextChar() returns (ok: bool, c: char)
      requires Valid() && buffer == null && nextOut == bufferSize
      modifies request.buf, request.buf.data, request.sock
      ensures Stopped() && Consumed() && readTrailer == old(readTrailer)
      ensures ok <==> old(View()) != []
      ensures ok ==> c == old(View())[0] && View() == old(View())[1..]
    {
      assert View() == request.sock.unread;
      var pc := new char[1];
      var k;
      ok, k := request.ReadClientNonChunked(pc, 0, 1);
      c := pc[0];
    }

    method RecvNextChar() returns (ok: bool, c: char)
      requires Valid() && buffer != null && nextOut == bufferSize && (request.sock.unread != [] || !request.sock.closes)
      modifies this, request.buf, request.buf.data, request.sock
      ensures Stopped() && (ok ==> Consumed() && readTrailer == old(readTrailer))
      ensures ok <==> old(View()) != []
      ensures ok ==> c == old(View())[0] && View() == old(View())[1..]
    {
      assert View() == request.sock.unread;
      ok := RecvOne(buffer, request.sock);
      if !ok {
        return false, '\0';
      }
      chunk := buffer.data;
      start := buffer.nextUnparsedChunk;
      bufferSize := buffer.nextIn - buffer.nextUnparsedChunk;
      c := chunk[start + nextOut];
      nextOut := nextOut + 1;
    }

    /** One more byte into the request's buffer. */
    static method RecvOne(b: Buffer, sock: Socket) returns (ok: bool)
      requires b.Valid() && b.data.Length != 0 && b.nextRequestBegin == 0 && (sock.unread != [] || !sock.closes)
      modifies b, b.data, sock
      ensures b.Valid() && (b.data == old(b.data) || fresh(b.data)) && b.nextOut == old(b.nextOut)
      ensures ok <==> old(sock.unread) != []
      ensures ok ==>
        && b.data.Length != 0 && b.nextRequestBegin == 0 && b.nextUnparsedChunk == old(b.nextUnparsedChunk)
        && b.nextIn == old(b.nextIn) + 1 && b.data[b.nextIn - 1] == old(sock.unread)[0]
        && sock.unread == old(sock.unread)[1..]
        && b.Held() + sock.unread == old(b.Held() + sock.unread)
    {
      ghost var held, unread := b.Held(), sock.unread;
      var status := b.RecvBody(sock, 1, true, false);
      ok := status == Ok;
      if ok {
        TakeOne(held, unread);
        assert b.Held() == held + unread[..1];
        assert b.data[b.nextIn - 1] == b.Held()[|held|];
      }
    }

    static lemma TakeOne(held: string, unread: string)
      requires unread != []
      ensures (held + unread[..1]) + unread[1..] == held + unread && (held + unread[..1])[|held|] == unread[0]
    {
    }

    /** Reads one byte and compares it. */
    method CheckNextByte(expected: char) returns (ok: bool, readError: bool)
      requires Valid() && (View() != [] || SeesEnd())
      modifies this, request.buf, request.buf.data, request.sock
      ensures Stopped() && (!readError ==> Consumed() && readTrailer == old(readTrailer))
      ensures readError <==> old(View()) == []
      ensures ok <==> !readError && old(View())[0] == expected
      ensures !readError ==> View() == old(View())[1..]
    {
      var c;
      ok, c := GetNextChunkedChar();
      readError := !ok;
      ok := ok && c == expected;
    }

    method SkipTrailer() returns (ok: bool)
      requires Valid() && (ExpectCrLf(View()) != Truncated || SeesEnd())
      modifies this, request.buf, request.buf.data, request.sock
      ensures Stopped() && (ok ==> Consumed() && readTrailer == old(readTrailer))
      ensures ok <==> ExpectCrLf(old(View())).At?
      ensures ok ==> View() == ExpectCrLf(old(View())).rest
    {
      var e;
      ok, e := CheckNextByte('\r');
      if ok {
        ok, e := CheckNextByte('\n');
      }
    }

    /** One step of ParseSize. */
    static lemma SizeStep(v: string, sum: nat)
      ensures ParseSize(v, sum) ==
        if v == [] then Truncated
        else if HexDigit(v[0]) >= 0 then
          if sum * 16 + HexDigit(v[0]) > DWORD_MAX then Malformed else ParseSize(v[1..], sum * 16 + HexDigit(v[0]))
        else if v[0] == ';' || v[0] == '\r' then At(sum, v[0], v[1..])
        else Malformed
    {
    }

    /** The hexadecimal size and the character behind it, which is a ';' or a CR. */
    method ReadSize() returns (ok: bool, size: nat, last: char)
      requires Valid() && (ParseSize(View(), 0) != Truncated || SeesEnd())
      modifies this, request.buf, request.buf.data, request.sock
      ensures Stopped() && (ok ==> Consumed() && readTrailer == old(readTrailer))
      ensures ok <==> ParseSize(old(View()), 0).At?
      ensures ok ==> ParseSize(old(View()), 0) == At(size, last, View())
    {
      hide ParseSize;
      size, last := 0, '\0';
      while true
        invariant Consumed() && readTrailer == old(readTrailer)
        invariant ParseSize(View(), size) == ParseSize(old(View()), 0)
        decreases |View()|
      {
        SizeStep(View(), size);
        ok, last := GetNextChunkedChar();
        if !ok {
          return;
        }
        var digit := HexDigit(last);
        if digit < 0 {
          ok := last == ';' || last == '\r';
          return;
        }
        if size * 16 > DWORD_MAX || size * 16 + digit > DWORD_MAX {
          ok := false;
          return;
        }
        size := size * 16 + digit;
      }
    }

    /** Swallows the chunk extension and the CRLF behind it. */
    method ReadExtension() returns (ok: bool)
      requires Valid() && (SkipExtension(View(), 0) != Truncated || SeesEnd())
      modifies this, request.buf, request.buf.data, request.sock
      ensures Stopped() && (ok ==> Consumed() && readTrailer == old(readTrailer))
      ensures ok <==> SkipExtension(old(View()), 0).At?
      ensures ok ==> SkipExtension(old(View()), 0) == At(0, '\n', View())
    {
      var size: nat, ended := 0, false;
      while size < MAX_CHUNK_EXTENSION && !ended
        invariant Consumed() && readTrailer == old(readTrailer)
        invariant if ended
          then SkipExtension(old(View()), 0) == if size >= MAX_CHUNK_EXTENSION then Malformed else At(0, '\n', View())
          else SkipExtension(old(View()), 0) == SkipExtension(View(), size)
        decreases !ended, |View()|
      {
        ok, ended, size := ReadExtensionChar(size);
        if !ok {
          return;
        }
      }
      ok := size < MAX_CHUNK_EXTENSION;
    }

    /** One step of SkipExtension. */
    static lemma ExtensionStep(v: string, before: nat)
      requires before < MAX_CHUNK_EXTENSION
      ensures SkipExtension(v, before) ==
        if v == [] || (v[0] == '\r' && v[1..] == []) then Truncated
        else if v[0] != '\r' then SkipExtension(v[1..], before + 1)
        else if v[1..][0] != '\n' then SkipExtension(v[1..][1..], before + 2)
        else if before + 1 >= MAX_CHUNK_EXTENSION then Malformed
        else At(0, '\n', v[1..][1..])
    {
      assert |v| >= 2 ==> v[2..] == v[1..][1..];
    }

    /** One extension character; a CR is taken together with the character behind it. */
    method ReadExtensionChar(before: nat) returns (ok: bool, ended: bool, size: nat)
      requires Valid() && before < MAX_CHUNK_EXTENSION && (SkipExtension(View(), before) != Truncated || SeesEnd())
      modifies this, request.buf, request.buf.data, request.sock
      ensures Stopped() && (ok ==> Consumed() && readTrailer == old(readTrailer) && |View()| < |old(View())|)
      ensures SkipExtension(old(View()), before) ==
        if !ok then Truncated
        else if !ended then SkipExtension(View(), size)
        else if size >= MAX_CHUNK_EXTENSION then Malformed
        else At(0, '\n', View())
    {
      hide SkipExtension;
      ExtensionStep(View(), before);
      var c;
      ended, size := false, before;
      ok, c := GetNextChunkedChar();
      if !ok {
        return;
      }
      size := size + 1;
      if c == '\r' {
        var readError;
        ended, readError := CheckNextByte('\n');
        if ended {
          return;
        }
        if readError {
          return false, false, size;
        }
        size := size + 1;
      }
    }

    /** The size of the chunk, the extension if there is one, and the line end. */
    method ReadSizeLine() returns (ok: bool, size: nat)
      requires Valid() && (ParseSizeLine(View()) != Truncated || SeesEnd())
      modifies this, request.buf, request.buf.data, request.sock
      ensures Stopped() && (ok ==> Consumed() && readTrailer == old(readTrailer))
      ensures ok <==> ParseSizeLine(old(View())).At?
      ensures ok ==> ParseSizeLine(old(View())) == At(size, '\n', View())
    {
      hide ParseSize, ParseTail;
      var last;
      ok, size, last := ReadSize();
      if ok {
        ok := ReadTail(size, last);
      }
    }

    /** What follows the size digits. */
    method ReadTail(size: nat, last: char) returns (ok: bool)
      requires Valid() && (ParseTail(At(size, last, View())) != Truncated || SeesEnd())
      modifies this, request.buf, request.buf.data, request.sock
      ensures Stopped() && (ok ==> Consumed() && readTrailer == old(readTrailer))
      ensures ok <==> ParseTail(At(size, last, old(View()))).At?
      ensures ok ==> ParseTail(At(size, last, old(View()))) == At(size, '\n', View())
    {
      hide SkipExtension;
      if last == ';' {
        ok := ReadExtension();
      } else {
        var e;
        ok, e := CheckNextByte('\n');
      }
    }

    /** Swallows the CRLF of the preceding chunk, if there is one. */
    method FinishPreceding() returns (ok: bool)
      requires Valid() && (readTrailer && ExpectCrLf(View()) == Truncated ==> SeesEnd())
      modifies this, request.buf, request.buf.data, request.sock
      ensures Stopped() && (ok ==> Consumed() && readTrailer)
      ensures ok <==> (old(readTrailer) ==> ExpectCrLf(old(View())).At?)
      ensures ok ==> View() == if old(readTrailer) then ExpectCrLf(old(View())).rest else old(View())
    {
      if readTrailer {
        ok := SkipTrailer();
      } else {
        readTrailer := true;
        ok := true;
      }
    }

    /** One whole chunk header; swallow says how many of the bytes at hand belong to it. */
    method ParseChunkHeader() returns (ok: bool, swallow: nat, size: nat)
      requires Valid() && nextOut == 0 && (ParseHeader(View(), readTrailer) != Truncated || SeesEnd())
      modifies this, request.buf, request.buf.data, request.sock
      ensures Stopped() && (ok ==> Consumed() && readTrailer)
      ensures ok <==> ParseHeader(old(View()), old(readTrailer)).At?
      ensures ok ==> ParseHeader(old(View()), old(readTrailer)) == At(size, '\n', View()) && swallow == nextOut
    {
      swallow, size := 0, 0;
      ok := FinishPreceding();
      if ok {
        ok, size := ReadSizeLine();
        swallow := nextOut;
      }
    }
  }

  // ---------- The initial read ----------

  /** Removes `swallow` bytes at the first unparsed position by moving what follows down. */
  method StripHeader(b: Buffer, swallow: nat)
    requires b.Valid() && b.data.Length != 0 && b.nextRequestBegin == 0
    requires b.nextOut <= b.nextUnparsedChunk && b.nextUnparsedChunk + swallow <= b.nextIn
    modifies b`nextIn, b`nextInFollow, b`nextDecrypt, b.data
    ensures b.Valid() && b.nextIn == old(b.nextIn) - swallow
    ensures b.nextDecrypt == old(b.nextDecrypt) - swallow && b.nextInFollow == old(b.nextInFollow) - swallow
    ensures b.Held()[..b.nextUnparsedChunk] == old(b.Held())[..b.nextUnparsedChunk]
    ensures b.Held()[b.nextUnparsedChunk..] == old(b.Held())[b.nextUnparsedChunk + swallow..]
  {
    var remaining := b.nextIn - b.nextUnparsedChunk;
    if remaining != 0 {
      var toMove := remaining - swallow;
      forall i | 0 <= i < toMove {
        b.data[b.nextUnparsedChunk + i] := b.data[b.nextUnparsedChunk + swallow + i];
      }
    }
    b.nextDecrypt := b.nextDecrypt - swallow;
    b.nextInFollow := b.nextInFollow - swallow;
    b.nextIn := b.nextIn - swallow;
  }

  /**
    The bytes of the current chunk at hand are decoded data already; `size` more are to come.  Reads
    them, or as many as postReadSize allows: then `left` of them remain for the extension to read.
  */
  method FillChunk(request: HttpRequest, size: nat, postReadSize: nat) returns (ok: bool, left: nat)
    requires var b := request.buf; b.Valid() && b.data.Length != 0 && b.nextRequestBegin == 0
    requires |request.buf.Raw()| < postReadSize && |request.sock.unread| < size ==> !request.sock.closes
    modifies request.buf, request.buf.data, request.sock
    ensures var b := request.buf;
      && b.Valid() && b.data.Length != 0 && b.nextRequestBegin == 0 && (b.data == old(b.data) || fresh(b.data))
      && b.nextOut == old(b.nextOut) && b.nextUnparsedChunk == old(b.nextUnparsedChunk)
      && (!ok ==> |old(request.sock.unread)| < size && |old(b.Raw())| < postReadSize)
      && (ok ==>
            && left <= size && size - left <= |old(request.sock.unread)|
            && b.nextIn == old(b.nextIn) + size - left
            && b.Raw() == old(b.Raw()) + old(request.sock.unread)[..size - left]
            && request.sock.unread == old(request.sock.unread)[size - left..]
            && (size != left ==> |b.Raw()| <= postReadSize)
            && (left != 0 ==> postReadSize <= |b.Raw()|))
  {
    var b := request.buf;
    if b.nextIn - b.nextOut >= postReadSize {
      assert b.Raw() + request.sock.unread[..0] == b.Raw();
      return true, size;
    }
    var room := postReadSize - (b.nextIn - b.nextOut);
    var toRead := if room < size then room else size;
    var end := b.nextIn;
    ok := RecvData(b, request.sock, toRead);
    left := if ok then size - (b.nextIn - end) else size;
  }

  /** n more bytes of data into the buffer. */
  method RecvData(b: Buffer, sock: Socket, n: nat) returns (ok: bool)
    requires b.Valid() && b.data.Length != 0 && b.nextRequestBegin == 0 && (|sock.unread| < n ==> !sock.closes)
    modifies b, b.data, sock
    ensures b.Valid() && b.data.Length != 0 && b.nextRequestBegin == 0 && (b.data == old(b.data) || fresh(b.data))
    ensures b.nextOut == old(b.nextOut) && b.nextUnparsedChunk == old(b.nextUnparsedChunk)
    ensures ok <==> n <= |old(sock.unread)|
    ensures ok ==> b.nextIn == old(b.nextIn) + n && sock.unread == old(sock.unread)[n..]
    ensures ok ==> b.Raw() == old(b.Raw()) + old(sock.unread)[..n]
  {
    ghost var held, unread, raw := b.Held(), sock.unread, b.Raw();
    assert raw == held[b.nextOut..] && |held| == b.nextIn;
    var hi := b.RecvBody(sock, n, true, false);
    ok := hi == Ok;
    if ok {
      assert b.Held() == held + unread[..n];
      RestOfBoth(held, unread[..n], b.nextOut);
      assert b.Raw() == b.Held()[b.nextOut..];
    }
  }

  lemma RestOfBoth(held: string, more: string, from: nat)
    requires from <= |held|
    ensures (held + more)[from..] == held[from..] + more
  {
  }

  /**
    The state at the head of the loop: decoded data, then raw bytes, in the buffer and on the wire;
    the bytes in the buffer, and the room behind them, are within the reach of the initial read.
  */
  ghost predicate Decoding(b: Buffer, sock: Socket, trailer: bool, postReadSize: nat, target: Decoded)
    reads b, b.data, sock
  {
    && b.Valid() && b.data.Length != 0 && b.nextRequestBegin == 0
    && b.nextOut <= b.nextUnparsedChunk <= b.nextIn
    && target == Decode(b.Held()[b.nextUnparsedChunk..] + sock.unread, trailer, ReachOf(b, postReadSize))
                 .Prefixed(b.Held()[b.nextOut..b.nextUnparsedChunk])
  }

  /** How far the initial read gets from the first unparsed position on. */
  ghost function ReachOf(b: Buffer, postReadSize: nat): Reach
    reads b
    requires b.nextOut <= b.nextUnparsedChunk <= b.nextIn
  {
    Reach(b.nextIn - b.nextUnparsedChunk, Less(postReadSize, b.nextUnparsedChunk - b.nextOut))
  }

  /** The stream does not end inside the body, or its end shows as a timeout. */
  ghost predicate EndSeen(target: Decoded, sock: Socket) {
    target.end == Cut ==> !sock.closes
  }

  function Max(a: nat, b: nat): nat { if a < b then b else a }

  /**
    Strips the chunk headers from the bytes that have come with the request, and reads on until the
    body, or postReadSize bytes of it, are in the buffer.  What is in the buffer then, followed by
    what is still pending, is the decoded body.
  */
  method ParseInitialChunkedUpload(request: HttpRequest, postReadSize: nat) returns (ok: bool, counter: nat)
    requires var b := request.buf; b.Valid() && b.data.Length != 0 && b.nextRequestBegin == 0
    requires var b := request.buf;
      EndSeen(Decode(b.Raw() + request.sock.unread, false, Reach(|b.Raw()|, postReadSize)), request.sock)
    modifies request.buf, request.buf.data, request.sock
    ensures var b := request.buf;
      var target := Decode(old(b.Raw() + request.sock.unread), false, Reach(|old(b.Raw())|, postReadSize));
      && b.Valid() && (b.data == old(b.data) || fresh(b.data)) && b.nextOut == old(b.nextOut)
      && (!ok ==> target.end != Complete)
      && (ok ==> target == Pending(counter, request.sock.unread).Prefixed(b.Raw()) && 0 < counter <= END_OF_BODY)
      && (ok ==> |b.Raw()| <= Max(old(|b.Raw()|), postReadSize) && b.nextDecrypt == b.nextInFollow == b.nextIn)
  {
    hide Decode, Undelivered;
    var b, sock := request.buf, request.sock;
    ghost var target := Decode(b.Raw() + sock.unread, false, Reach(|b.Raw()|, postReadSize));
    b.nextUnparsedChunk := b.nextOut;
    var parser := new ChunkParser(request, b, b.data, b.nextUnparsedChunk, b.nextIn - b.nextUnparsedChunk);
    assert b.Held()[b.nextUnparsedChunk..] == b.Raw();
    assert b.Held()[b.nextOut..b.nextUnparsedChunk] == [];
    PrefixedByNothing(target);
    ok, counter := DecodeChunks(parser, postReadSize, target, Max(|b.Raw()|, postReadSize));
    if ok {
      b.nextDecrypt, b.nextInFollow := b.nextIn, b.nextIn;
    }
  }

  /** What the buffer holds, followed by what is pending, is the decoded body. */
  ghost predicate Delivered(b: Buffer, sock: Socket, counter: nat, target: Decoded)
    reads b, b.data, sock
  {
    b.Valid() && 0 < counter <= END_OF_BODY && target == Pending(counter, sock.unread).Prefixed(b.Raw())
  }

  /** The loop over the chunks. */
  method DecodeChunks(parser: ChunkParser, postReadSize: nat, ghost target: Decoded, ghost bound: nat)
    returns (ok: bool, counter: nat)
    requires parser.Valid() && parser.buffer == parser.request.buf && EndSeen(target, parser.request.sock)
    requires Decoding(parser.request.buf, parser.request.sock, parser.readTrailer, postReadSize, target)
    requires var b := parser.request.buf; b.nextIn - b.nextOut <= bound && postReadSize <= bound
    modifies parser, parser.request.buf, parser.request.buf.data, parser.request.sock
    ensures var b, sock := parser.request.buf, parser.request.sock;
      && b.Valid() && (b.data == old(b.data) || fresh(b.data)) && b.nextOut == old(b.nextOut)
      && (!ok ==> target.end != Complete)
      && (ok ==> b.nextIn - b.nextOut <= bound && Delivered(b, sock, counter, target))
  {
    hide Decode, Undelivered, Pending;
    var b, sock := parser.request.buf, parser.request.sock;
    counter, ok := 0, true;
    var more := true;
    while more
      invariant b.Valid() && (b.data == old(b.data) || fresh(b.data)) && b.nextOut == old(b.nextOut)
      invariant more ==> ok && Decoding(b, sock, parser.readTrailer, postReadSize, target)
      invariant ok ==> b.nextIn - b.nextOut <= bound
      invariant !ok ==> target.end != Complete
      invariant ok && !more ==> Delivered(b, sock, counter, target)
      decreases more, b.nextIn - b.nextUnparsedChunk + |sock.unread|
    {
      parser.SetChunkHeader(b.data, b.nextUnparsedChunk, b.nextIn - b.nextUnparsedChunk);
      ok, more, counter := DecodeChunk(parser, postReadSize, target, bound);
    }
  }

  /** One pass of the loop: a chunk header, and the data behind it. */
  method DecodeChunk(parser: ChunkParser, postReadSize: nat, ghost target: Decoded, ghost bound: nat)
    returns (ok: bool, more: bool, counter: nat)
    requires parser.Valid() && parser.buffer == parser.request.buf && parser.nextOut == 0
    requires Decoding(parser.request.buf, parser.request.sock, parser.readTrailer, postReadSize, target)
    requires EndSeen(target, parser.request.sock)
    requires var b := parser.request.buf; b.nextIn - b.nextOut <= bound && postReadSize <= bound
    modifies parser, parser.request.buf, parser.request.buf.data, parser.request.sock
    ensures var b, sock := parser.request.buf, parser.request.sock;
      && b.Valid() && (b.data == old(b.data) || fresh(b.data)) && b.nextOut == old(b.nextOut)
      && (!ok ==> !more && target.end != Complete)
      && (ok ==> b.nextIn - b.nextOut <= bound && parser.readTrailer)
      && (ok && !more ==> Delivered(b, sock, counter, target))
      && (more ==> Decoding(b, sock, true, postReadSize, target))
      && (more ==> b.nextIn - b.nextUnparsedChunk + |sock.unread| < old(b.nextIn - b.nextUnparsedChunk + |sock.unread|))
  {
    hide Decode, Undelivered, ParseHeader, Chunked;
    var last;
    ghost var rest;
    ok, last, counter, rest := TakeHeader(parser, postReadSize, target);
    if !ok || last {
      more := false;
      return;
    }
    ok, more, counter := DecodeData(parser.request, counter, postReadSize, target, rest);
  }

  /** Parses the header at the first unparsed position and removes it; behind the last one, everything. */
  method TakeHeader(parser: ChunkParser, postReadSize: nat, ghost target: Decoded)
    returns (ok: bool, last: bool, counter: nat, ghost rest: string)
    requires parser.Valid() && parser.buffer == parser.request.buf && parser.nextOut == 0
    requires Decoding(parser.request.buf, parser.request.sock, parser.readTrailer, postReadSize, target)
    requires EndSeen(target, parser.request.sock)
    modifies parser, parser.request.buf, parser.request.buf.data, parser.request.sock
    ensures var b, sock := parser.request.buf, parser.request.sock;
      && b.Valid() && (b.data == old(b.data) || fresh(b.data)) && b.nextOut == old(b.nextOut)
      && (!ok ==> target.end != Complete)
      && (ok ==>
            && parser.readTrailer && 0 < counter <= END_OF_BODY
            && b.data.Length != 0 && b.nextRequestBegin == 0 && b.nextUnparsedChunk == old(b.nextUnparsedChunk)
            && b.nextOut <= b.nextUnparsedChunk <= b.nextIn <= old(b.nextIn)
            && rest == b.Held()[b.nextUnparsedChunk..] + sock.unread
            && |rest| < old(b.nextIn - b.nextUnparsedChunk + |sock.unread|))
      && (ok && last ==> Delivered(b, sock, counter, target))
      && (ok && !last ==>
            target
              == Chunked(counter, rest, ReachOf(b, postReadSize)).Prefixed(b.Held()[b.nextOut..b.nextUnparsedChunk]))
  {
    hide Decode, Undelivered, ParseHeader;
    var b, sock := parser.request.buf, parser.request.sock;
    ghost var done, trailer := b.Held()[b.nextOut..b.nextUnparsedChunk], parser.readTrailer;
    ghost var reach := ReachOf(b, postReadSize);
    DecodeHeader(b.Held()[b.nextUnparsedChunk..] + sock.unread, trailer, reach);
    var swallow, size;
    ok, swallow, size, rest := HeaderAtHand(parser);
    last, counter := size == 0, size;
    if !ok {
      return;
    }
    if last {
      DropRest(b);
      counter := END_OF_BODY;
      rest := sock.unread;
      assert b.Held()[b.nextUnparsedChunk..] == [] && [] + sock.unread == rest;
      return;
    }
    StripHeader(b, swallow);
    assert b.Held()[b.nextOut..b.nextUnparsedChunk] == done;
    assert reach.Past(swallow, 0) == ReachOf(b, postReadSize);
  }

  /** Behind the last chunk: the bytes from the first unparsed position on are forgotten. */
  method DropRest(b: Buffer)
    requires b.Valid() && b.nextOut <= b.nextUnparsedChunk <= b.nextIn
    modifies b`nextIn, b`nextInFollow, b`nextDecrypt
    ensures b.Valid() && b.nextIn == b.nextDecrypt == b.nextInFollow == b.nextUnparsedChunk
    ensures b.Raw() == old(b.Held()[b.nextOut..b.nextUnparsedChunk])
  {
    PartOfHeld(b, b.nextOut, b.nextUnparsedChunk);
    b.nextDecrypt, b.nextInFollow, b.nextIn := b.nextUnparsedChunk, b.nextUnparsedChunk, b.nextUnparsedChunk;
  }

  lemma PartOfHeld(b: Buffer, i: nat, j: nat)
    requires b.Valid() && i <= j <= b.nextIn
    ensures b.Held()[i..j] == b.data[i..j]
  {
    assert forall k :: 0 <= k < j - i ==> b.Held()[i..j][k] == b.data[i + k];
  }

  /** Two cuts of one stream agree in front of both. */
  lemma SameFront(held: string, unread: string, held': string, unread': string, from: nat, to: nat)
    requires held + unread == held' + unread' && from <= to <= |held| <= |held'|
    ensures held'[from..to] == held[from..to]
  {
    assert held[from..to] == (held + unread)[from..to];
    assert held'[from..to] == (held' + unread')[from..to];
  }

  /** The header at the first unparsed position, seen from the buffer. */
  method HeaderAtHand(parser: ChunkParser) returns (ok: bool, swallow: nat, size: nat, ghost rest: string)
    requires parser.Valid() && parser.buffer == parser.request.buf && parser.nextOut == 0
    requires parser.request.buf.nextOut <= parser.request.buf.nextUnparsedChunk
    requires var b, sock := parser.request.buf, parser.request.sock;
      ParseHeader(b.Held()[b.nextUnparsedChunk..] + sock.unread, parser.readTrailer) == Truncated ==> !sock.closes
    modifies parser, parser.request.buf, parser.request.buf.data, parser.request.sock
    ensures var b, sock := parser.request.buf, parser.request.sock;
      && b.Valid() && (b.data == old(b.data) || fresh(b.data)) && b.nextOut == old(b.nextOut)
      && (ok ==>
            && b.data.Length != 0 && b.nextRequestBegin == 0 && b.nextUnparsedChunk == old(b.nextUnparsedChunk)
            && parser.readTrailer && b.nextIn >= old(b.nextIn)
            && b.nextUnparsedChunk + swallow <= b.nextIn
            && (b.nextIn > old(b.nextIn) ==> b.nextUnparsedChunk + swallow == b.nextIn)
            && b.Held()[b.nextOut..b.nextUnparsedChunk] == old(b.Held()[b.nextOut..b.nextUnparsedChunk]))
    ensures var b, sock := parser.request.buf, parser.request.sock;
      var v := old(b.Held()[b.nextUnparsedChunk..] + sock.unread);
      var h := ParseHeader(v, old(parser.readTrailer));
      && (ok <==> h.At?)
      && (ok ==> h == At(size, '\n', rest) && rest == b.Held()[b.nextUnparsedChunk + swallow..] + sock.unread)
      && (ok ==> swallow == |v| - |rest|)
  {
    hide ParseHeader;
    var b, sock := parser.request.buf, parser.request.sock;
    ghost var held, unread := b.Held(), sock.unread;
    parser.ViewOfBuffer();
    ok, swallow, size := parser.ParseChunkHeader();
    if !ok {
      return false, 0, 0, [];
    }
    parser.ViewOfBuffer();
    rest := parser.View();
    SameFront(held, unread, b.Held(), sock.unread, b.nextOut, b.nextUnparsedChunk);
  }

  /** The header is gone; `size` bytes of data follow at the first unparsed position. */
  method DecodeData(request: HttpRequest, size: nat, postReadSize: nat, ghost target: Decoded, ghost rest: string)
    returns (ok: bool, more: bool, counter: nat)
    requires var b := request.buf;
      && b.Valid() && b.data.Length != 0 && b.nextRequestBegin == 0
      && b.nextOut <= b.nextUnparsedChunk <= b.nextIn
      && rest == b.Held()[b.nextUnparsedChunk..] + request.sock.unread
      && target == Chunked(size, rest, ReachOf(b, postReadSize)).Prefixed(b.Held()[b.nextOut..b.nextUnparsedChunk])
    requires EndSeen(target, request.sock) && 0 < size <= END_OF_BODY
    modifies request.buf, request.buf.data, request.sock
    ensures var b, sock := request.buf, request.sock;
      && b.Valid() && (b.data == old(b.data) || fresh(b.data)) && b.nextOut == old(b.nextOut)
      && (!ok ==> !more && target.end != Complete)
      && (ok ==> b.nextIn - b.nextOut <= Max(old(b.nextIn - b.nextOut), postReadSize))
      && (ok && !more ==> Delivered(b, sock, counter, target))
      && (more ==>
            && Decoding(b, sock, true, postReadSize, target)
            && b.nextIn - b.nextUnparsedChunk + |sock.unread| <= |rest|)
  {
    hide Decode, Undelivered;
    var b, sock := request.buf, request.sock;
    ghost var done, hand := b.Held()[b.nextOut..b.nextUnparsedChunk], b.Held()[b.nextUnparsedChunk..];
    ghost var reach := ReachOf(b, postReadSize);
    var remaining := b.nextIn - b.nextUnparsedChunk;
    counter := size;
    if counter > remaining {
      assert rest[..remaining] == hand && rest[remaining..] == sock.unread;
      assert b.Raw() == done + hand;
      if size == END_OF_BODY && reach == BEYOND {
        assert done + hand == done;
      } else {
        DataTaken(size, rest, remaining, done, reach);
      }
      b.nextUnparsedChunk := b.nextUnparsedChunk + remaining;
      counter := counter - remaining;
      ok, more, counter := ReadOn(request, counter, postReadSize, target);
    } else {
      ChunkAtHand(size, hand, sock.unread, done, reach);
      b.nextUnparsedChunk := b.nextUnparsedChunk + counter;
      assert b.Held()[b.nextUnparsedChunk..] == hand[counter..];
      assert b.Held()[b.nextOut..b.nextUnparsedChunk] == done + hand[..counter];
      ok, more := true, true;
    }
  }

  /** What the count of bytes that are left stands for, once the initial read has read what it wants. */
  lemma DataRead(size: nat, unread: string, left: nat, raw: string, postReadSize: nat)
    requires left <= size <= END_OF_BODY && 0 < size && size - left <= |unread|
    requires left != 0 ==> postReadSize <= |raw| + size - left
    requires left != size ==> |raw| + size - left <= postReadSize
    ensures var got := raw + unread[..size - left];
      var target := Chunked(size, unread, Reach(0, Less(postReadSize, |raw|))).Prefixed(raw);
      target == if left != 0 then Pending(left, unread[size - left..]).Prefixed(got)
                else Decode(unread[size..], true, Reach(0, Less(postReadSize, |got|))).Prefixed(got)
  {
    hide Decode, Undelivered;
    var reach := Reach(0, Less(postReadSize, |raw|));
    if left == END_OF_BODY {
      assert raw + unread[..0] == raw;
    } else {
      var k := size - left;
      assert Chunked(size, unread, reach) == Undelivered(size, unread, reach);
      DataTaken(size, unread, k, raw, reach);
      var further := reach.Past(k, k);
      if left != 0 {
        assert further == BEYOND;
      } else {
        assert further == Reach(0, Less(postReadSize, |raw + unread[..k]|));
        NothingOfTheChunkLeft(unread[k..], raw + unread[..k], further);
      }
    }
  }

  /**
    Everything in the buffer is data; `size` more bytes of the chunk are to come.  A count that is
    still 0xFFFFFFFF afterwards, because nothing could be taken off it, marks the end of the body.
  */
  method ReadOn(request: HttpRequest, size: nat, postReadSize: nat, ghost target: Decoded)
    returns (ok: bool, more: bool, counter: nat)
    requires var b := request.buf;
      && b.Valid() && b.data.Length != 0 && b.nextRequestBegin == 0
      && b.nextUnparsedChunk == b.nextIn
      && target == Chunked(size, request.sock.unread, ReachOf(b, postReadSize)).Prefixed(b.Raw())
    requires EndSeen(target, request.sock) && 0 < size <= END_OF_BODY
    modifies request.buf, request.buf.data, request.sock
    ensures var b, sock := request.buf, request.sock;
      && b.Valid() && (b.data == old(b.data) || fresh(b.data)) && b.nextOut == old(b.nextOut)
      && (!ok ==> !more && target.end != Complete)
      && (ok ==> b.nextIn - b.nextOut <= Max(old(b.nextIn - b.nextOut), postReadSize))
      && (ok && !more ==> Delivered(b, sock, counter, target))
      && (more ==> Decoding(b, sock, true, postReadSize, target)
                   && b.nextIn - b.nextUnparsedChunk + |sock.unread| <= |old(sock.unread)|)
  {
    hide Decode, Undelivered;
    var b, sock := request.buf, request.sock;
    ghost var unread, raw, reach := sock.unread, b.Raw(), ReachOf(b, postReadSize);
    DataArrives(size, unread, reach);
    var left;
    ok, left := FillChunk(request, size, postReadSize);
    if !ok {
      return false, false, size;
    }
    DataRead(size, unread, left, raw, postReadSize);
    if left != 0 {
      return true, false, left;
    }
    b.nextUnparsedChunk := b.nextUnparsedChunk + size;
    assert b.Held()[b.nextUnparsedChunk..] == [];
    assert [] + sock.unread == sock.unread;
    more, counter := true, size;
  }

  // ---------- From the client to the extension ----------

  /**
    An upload from end to end: the initial read, then an extension that reads with buffers of the
    given sizes until it is told that there is no more.  However the network cut the stream, the
    extension gets the data of the chunks, each byte once and in order: what it has and what is pending
    is the data in front of the first chunk that is lost, and nothing is pending if it keeps asking.
  */
  method Upload(request: HttpRequest, postReadSize: nat, sizes: seq<nat>, ghost body: Body, ghost tail: string)
    returns (received: string)
    requires request.buf.Valid() && request.buf.data.Length != 0 && request.buf.nextRequestBegin == 0
    requires WellFormed(body) && request.buf.Raw() + request.sock.unread == Render(body) + tail
    requires forall i :: 0 <= i < |sizes| ==> 0 < sizes[i]
    modifies request, request.buf, request.buf.data, request.sock
    ensures received <= Payload(body.chunks)
    ensures var reach := Reach(|old(request.buf.Raw())|, postReadSize);
      var pending := Pending(request.bytesRemainingInChunk, request.sock.unread).bytes;
      && received + pending == Payload(body.chunks[..Kept(body.chunks, reach)])
      && (|sizes| >= |Payload(body.chunks)| ==>
            && pending == []
            && (received == Payload(body.chunks) <==>
              forall i :: 0 <= i < |body.chunks| ==> !Lost(body.chunks, reach, i)))
  {
    hide Decode, Undelivered, Kept, Lost, Payload, Render, WellFormed;
    ghost var reach := Reach(|request.buf.Raw()|, postReadSize);
    ghost var data := Decode(Render(body) + tail, false, reach);
    DecodeRendered(body, tail, false, reach);
    RecoveredExactly(body, tail, |request.buf.Raw()|, postReadSize);
    assert [] + Render(body) + tail == Render(body) + tail;
    var ok, counter := ParseInitialChunkedUpload(request, postReadSize);
    if !ok {
      return [];
    }
    request.bytesRemainingInChunk := counter;
    received := request.buf.data[request.buf.nextOut..request.buf.nextIn];
    var i := 0;
    while i < |sizes|
      invariant request.buf.Valid() && (request.buf.data == old(request.buf.data) || fresh(request.buf.data))
      invariant 0 < request.bytesRemainingInChunk <= END_OF_BODY
      invariant data == Pending(request.bytesRemainingInChunk, request.sock.unread).Prefixed(received)
      invariant request.bytesRemainingInChunk == END_OF_BODY || |received| >= i
      decreases |sizes| - i
    {
      var pv := new char[sizes[i]];
      var k;
      ok, k := request.ReadClientChunked(pv, sizes[i]);
      if !ok {
        return [];
      }
      PrefixedTwice(Pending(request.bytesRemainingInChunk, request.sock.unread), received, pv[..k]);
      received := received + pv[..k];
      i := i + 1;
    }
  }
}
