/**
  CBuffer: the one array a connection's bytes pass through, and the indices that divide it.  Only
  connections without SSL; SecureBuffer.dfy has the decrypting read.
*/
module RequestBuffer {
  import opened CStrings
  import opened Wire
  import opened HeaderBlock

  const MINBUFSIZE: nat := 1024

  class Buffer {
    /** m_pszBuf, of length m_iSize; length 0 stands for the null pointer. */
    var data: array<char>
    var nextOut: nat
    var nextIn: nat
    /** Set and read by raw-read filters; may go below zero while chunk headers are stripped. */
    var nextInFollow: int
    var nextDecrypt: int
    var nextUnparsedChunk: nat
    /** The character a terminating NUL has replaced at nextOut, or NUL. */
    var saved: char
    /** The next request, if its first bytes came along with the body of this one. */
    var nextRequestBegin: nat
    var nextRequestSize: nat
    var nextRequestSaved: char

    ghost predicate Valid()
      reads this, data
    {
      && nextOut <= nextIn
      && (if data.Length == 0 then nextIn == 0 else nextIn < data.Length)
      && (nextRequestBegin != 0 ==> 0 < nextRequestSize && nextRequestBegin + nextRequestSize <= data.Length)
    }

    /** Everything received and still held, consumed or not. */
    ghost function Held(): string
      reads this, data
      requires Valid()
    {
      data[..nextIn]
    }

    /** The bytes received for this request and not consumed yet. */
    ghost function Raw(): string
      reads this, data
      requires Valid()
    {
      data[nextOut..nextIn]
    }

    /** The beginning of the next request, put aside by RecvBody. */
    ghost function Pipelined(): string
      reads this, data
      requires Valid()
    {
      if nextRequestBegin == 0 then []
      else [nextRequestSaved] + data[nextRequestBegin + 1..nextRequestBegin + nextRequestSize]
    }

    constructor ()
      ensures Valid() && fresh(data) && nextIn == 0 && nextOut == 0 && saved == '\0' && Pipelined() == []
    {
      data := new char[0];
      nextOut, nextIn, nextInFollow, nextDecrypt, nextUnparsedChunk := 0, 0, 0, 0, 0;
      saved := '\0';
      nextRequestBegin, nextRequestSize, nextRequestSaved := 0, 0, '\0';
    }

    /** Between two requests of one connection; what belongs to the next request stays. */
    method Reset()
      requires Valid()
      modifies this
      ensures Valid() && data == old(data) && Pipelined() == old(Pipelined())
      ensures nextIn == nextOut == nextUnparsedChunk == 0 == nextDecrypt == nextInFollow && saved == '\0'
      ensures nextRequestBegin == old(nextRequestBegin) && nextRequestSize == old(nextRequestSize)
        && nextRequestSaved == old(nextRequestSaved)
    {
      nextDecrypt, nextInFollow, nextOut, nextIn, nextUnparsedChunk := 0, 0, 0, 0, 0;
      saved := '\0';
    }

    /** Makes room for n more bytes. */
    method AllocMem(n: nat)
      requires Valid()
      modifies this`data
      ensures data == old(data) || fresh(data)
      ensures Valid() && data.Length >= nextIn + n && data.Length > 0
      ensures var size, more := old(data.Length), if n < 1024 then 1024 else n;
        data.Length == if size == 0 then more else if size - nextIn <= n then size + more else size
      ensures data.Length >= old(data.Length) && data[..old(data.Length)] == old(data[..])
    {
      var alloc := if MINBUFSIZE > n then MINBUFSIZE else n;
      if data.Length == 0 {
        data := new char[alloc];
      } else if data.Length - nextIn <= n {
        var larger := new char[data.Length + alloc];
        forall i | 0 <= i < data.Length {
          larger[i] := data[i];
        }
        data := larger;
      }
    }

    /**
      Drops the white space before a request.  False: nothing but white space has arrived yet, or
      (abort) too much of it.
    */
    method TrimWhiteSpace() returns (scan: bool, abort: bool)
      requires Valid() && nextOut == 0 && 0 < nextIn && nextRequestBegin == 0
      modifies this`nextIn, data
      ensures Valid()
      ensures nextIn <= old(nextIn)
      ensures abort <==> LeadingSpace(old(Held())) >= MAX_WHITESPACE_READ
      ensures scan <==> !abort && LeadingSpace(old(Held())) < old(nextIn)
      ensures Held() == if scan then old(Held())[LeadingSpace(old(Held()))..] else old(Held())
    {
      ghost var held := Held();
      var i := 0;
      while i < nextIn && IsSpace(data[i]) && i < MAX_WHITESPACE_READ
        invariant i <= nextIn && i <= MAX_WHITESPACE_READ
        invariant forall k :: 0 <= k < i ==> IsSpace(held[k])
      {
        i := i + 1;
      }
      if i == MAX_WHITESPACE_READ {
        assert LeadingSpace(held) < i ==> SpaceAt(held, LeadingSpace(held));
        return false, true;
      }
      LeadingSpaceUnique(held, i);
      if i == 0 {
        assert held[0..] == held;
        return true, false;
      }
      if i == nextIn {
        return false, false;
      }
      var j := 0;
      while j < nextIn - i
        modifies data
        invariant j <= nextIn - i
        invariant forall k :: 0 <= k < j ==> data[k] == held[k + i]
        invariant forall k :: j <= k < nextIn ==> data[k] == held[k]
      {
        data[j] := data[j + i];
        j := j + 1;
      }
      nextIn := nextIn - i;
      assert Held() == held[i..];
      return true, false;
    }

    /** Puts the bytes set aside by RecvBody at the front, where the next header block is read. */
    method RestorePipelined()
      requires Valid() && nextRequestBegin != 0 && nextOut == 0 && nextIn == 0
      modifies this, data
      ensures Valid() && data == old(data) && nextRequestBegin == 0 && nextOut == 0 && saved == old(saved)
      ensures Held() == old(Pipelined()) && nextRequestSize == 0 && nextRequestSaved == '\0'
      ensures nextDecrypt == old(nextDecrypt) && nextInFollow == old(nextInFollow)
        && nextUnparsedChunk == old(nextUnparsedChunk)
    {
      ghost var aside := Pipelined();
      data[0] := nextRequestSaved;
      var i := 1;
      while i < nextRequestSize
        modifies data
        invariant 1 <= i <= nextRequestSize
        invariant forall k :: 0 <= k < i ==> data[k] == aside[k]
        invariant forall k :: i <= k < nextRequestSize ==> data[nextRequestBegin + k] == aside[k]
      {
        data[i] := data[nextRequestBegin + i];
        i := i + 1;
      }
      nextIn := nextRequestSize;
      nextRequestBegin, nextRequestSize, nextRequestSaved := 0, 0, '\0';
      assert Held() == aside;
    }

    /** Looks for a blank line from position `from` on; returns where the search stopped. */
    method ScanForBlankLine(from: nat) returns (at: nat, found: bool)
      requires Valid() && forall i :: 0 <= i < from ==> !BlankLineAt(Held(), i)
      ensures found ==> BlankLineAt(Held(), at)
      ensures !found ==> at + 3 >= nextIn && (at == from || at + 3 == nextIn)
      ensures forall i :: 0 <= i < at ==> !BlankLineAt(Held(), i)
    {
      at := from;
      while at + 3 < nextIn
        invariant at == from || at + 3 <= nextIn
        invariant forall i :: 0 <= i < at ==> !BlankLineAt(Held(), i)
        decreases nextIn - at
      {
        if data[at] == '\r' && data[at + 1] == '\n' && data[at + 2] == '\r' && data[at + 3] == '\n' {
          return at, true;
        }
        at := at + 1;
      }
      return at, false;
    }

    /** Receives at most n more bytes behind what is held. */
    method RecvMore(sock: Socket, n: nat) returns (k: nat)
      requires Valid() && nextIn + n < data.Length
      modifies this`nextIn, data, sock
      ensures Valid() && k <= n && k <= |old(sock.unread)| && (n > 0 && old(sock.unread) != [] ==> k > 0)
      ensures nextIn == old(nextIn) + k
      ensures Held() == old(Held()) + old(sock.unread)[..k] && sock.unread == old(sock.unread)[k..]
      ensures data[nextIn..] == old(data[nextIn..])[k..]
    {
      k := sock.Recv(data, nextIn, n);
      nextIn := nextIn + k;
    }

    /** The last step of every read: the buffer is also a C string. */
    method Terminate()
      requires Valid()
      modifies data
      ensures Valid() && Held() == old(Held()) && Raw() == old(Raw())
      ensures data.Length != 0 ==> data[nextIn] == '\0'
      ensures nextRequestBegin == 0 || nextRequestBegin == nextIn ==> Pipelined() == old(Pipelined())
    {
      if data.Length != 0 {
        data[nextIn] := '\0';
      }
    }

    /**
      Reads the header block of the next request.  The verdict, and every byte of the block, depend
      on the stream only; how recv cuts it matters just for how much lies behind the block.
    */
    method RecvHeaders(sock: Socket, maxHeader: nat) returns (status: Input)
      requires Valid() && nextOut == 0 && nextIn == 0 && |Pipelined()| <= maxHeader
      modifies this, data, sock
      ensures Valid() && (data == old(data) || fresh(data)) && nextOut == 0 && saved == old(saved) && Pipelined() == []
      ensures data.Length != 0 ==> data[nextIn] == '\0'
      ensures var stream := old(Pipelined() + sock.unread);
        && status == Verdict(stream, maxHeader, sock.closes).0
        && (Held() + sock.unread == stream || Held() + sock.unread == stream[LeadingSpace(stream)..])
        && (Verdict(stream, maxHeader, sock.closes).1 ==>
              && Held() + sock.unread == stream[LeadingSpace(stream)..]
              && BlockEnd(stream[LeadingSpace(stream)..], 0) <= nextIn <= maxHeader)
    {
      ghost var stream := Pipelined() + sock.unread;
      if nextRequestBegin != 0 {
        RestorePipelined();
      }
      status := RecvHeaderLoop(sock, maxHeader, stream);
      OutcomeIsVerdict(stream, Held(), sock.unread, status, maxHeader, sock.closes);
      Terminate();
    }

    /** Makes room for n bytes and receives at most that many. */
    method GrowAndRecv(sock: Socket, n: nat) returns (k: nat)
      requires Valid() && nextRequestBegin == 0
      modifies this`data, this`nextIn, data, sock
      ensures Valid() && (data == old(data) || fresh(data))
      ensures k <= n && (n > 0 && old(sock.unread) != [] ==> k > 0)
      ensures nextIn == old(nextIn) + k && k <= |old(sock.unread)| && sock.unread == old(sock.unread)[k..]
      ensures Held() == old(Held()) + old(sock.unread)[..k]
    {
      ghost var held := Held();
      AllocMem(n + 1);
      assert Held() == held;
      k := RecvMore(sock, n);
    }

    /** The first half of one pass: drop leading white space, then search what has come for the blank line. */
    method TrimAndScan(from: nat, ghost stream: string, ghost rest: string, ghost was: bool, ghost max: nat)
      returns (scan: nat, found: bool, abort: bool, ghost trimmed: bool)
      requires Valid() && nextOut == 0 && nextRequestBegin == 0 && Reading(stream, Held(), rest, from, was, max)
      modifies this`nextIn, data
      ensures Valid() && nextIn <= old(nextIn)
      ensures abort ==> LeadingSpace(stream) >= MAX_WHITESPACE_READ && Held() + rest == stream
      ensures !abort ==> Reading(stream, Held(), rest, scan, trimmed, max)
      ensures found && !abort ==> trimmed && BlankLineAt(Held(), scan)
      ensures !found && !abort ==> NoBlockIn(stream, Held(), rest, max)
    {
      scan, found, trimmed := from, false, was;
      var mayScan := true;
      if from == 0 && nextIn != 0 {
        TrimmedReading(stream, Held(), rest, was, max);
        mayScan, abort := TrimWhiteSpace();
        if abort {
          return;
        }
        trimmed := mayScan;
      }
      abort := false;
      if mayScan {
        scan, found := ScanForBlankLine(from);
      }
    }

    /** The second half: no blank line has come, so wait for more input, unless the limit or the end is reached. */
    method RecvMoreHeader(sock: Socket, max: nat) returns (more: bool, status: Input)
      requires Valid() && nextRequestBegin == 0 && nextIn <= max
      modifies this`data, this`nextIn, data, sock
      ensures Valid() && (data == old(data) || fresh(data)) && nextIn <= max
      ensures more ==>
        && |sock.unread| < |old(sock.unread)|
        && Held() + sock.unread == old(Held() + sock.unread)
        && old(Held()) <= Held()
      ensures !more ==> (max <= nextIn || sock.unread == []) && status == NoBlockStatus(nextIn, max, sock.closes)
      ensures !more ==> Held() == old(Held()) && sock.unread == old(sock.unread)
    {
      hide Held;
      if max <= nextIn {
        return false, Error;
      }
      var ready := sock.Select();
      if !ready {
        return false, if nextIn != 0 then Error else Timeout;
      }
      var available := sock.Available();
      var toRecv := if available + nextIn > max then max - nextIn else available;
      ghost var held, rest := Held(), sock.unread;
      var k := GrowAndRecv(sock, toRecv);
      TakeFront(held, rest, k);
      TakeNothing(held, rest);
      if k == 0 {
        return false, if nextIn != 0 then Ok else Timeout;
      }
      return true, Ok;
    }

    method RecvHeaderLoop(sock: Socket, max: nat, ghost stream: string) returns (status: Input)
      requires Valid() && nextOut == 0 && nextRequestBegin == 0 && nextIn <= max
      requires Held() + sock.unread == stream
      modifies this`data, this`nextIn, data, sock
      ensures Valid() && (data == old(data) || fresh(data))
      ensures Outcome(stream, Held(), sock.unread, status, max, sock.closes)
    {
      var scan, more := 0, true;
      status := Error;
      ghost var trimmed := false;
      while more
        invariant Valid() && (data == old(data) || fresh(data)) && nextRequestBegin == 0 && nextIn <= max
        invariant Reading(stream, Held(), sock.unread, scan, trimmed, max)
        invariant !more ==> Outcome(stream, Held(), sock.unread, status, max, sock.closes)
        decreases more, |sock.unread|
      {
        var found, abort;
        scan, found, abort, trimmed := TrimAndScan(scan, stream, sock.unread, trimmed, max);
        if abort {
          return Error;
        }
        if found {
          return Ok;
        }
        ghost var held, rest := Held(), sock.unread;
        more, status := RecvMoreHeader(sock, max);
        if more {
          ReadingGoesOn(stream, held, rest, Held(), sock.unread, scan, trimmed, max);
        }
      }
    }

    // ---------- Bodies ----------

    /**
      Reads the body of a request: `length` bytes on the first read, of which some have come along
      with the headers, or `length` further bytes for a filter.  Once the stream ends early, what
      there is counts as a success.
    */
    method RecvBody(sock: Socket, length: nat, fromFilter: bool, firstPostRead: bool) returns (status: Input)
      requires Valid() && data.Length != 0
      modifies this, data, sock
      ensures Valid() && (data == old(data) || fresh(data)) && data.Length != 0
      ensures nextOut == old(nextOut) && nextUnparsedChunk == old(nextUnparsedChunk) && saved == old(saved)
      ensures data[nextIn] == '\0'
      ensures nextDecrypt == old(nextDecrypt)
      ensures var have := |old(Raw())|;
        if !fromFilter && have >= length then
          && status == NoChange && sock.unread == old(sock.unread)
          && nextInFollow == nextIn == nextOut + length && Held() == old(Held())[..nextIn]
          && (old(nextRequestBegin) == 0 ==>
                Pipelined() == if firstPostRead && have > length + 2 && 0 < nextIn then old(Raw())[length..] else [])
        else
          var wanted := if fromFilter then length else length - have;
          var got := if wanted <= |old(sock.unread)| then wanted else |old(sock.unread)|;
          && Held() == old(Held()) + old(sock.unread)[..got] && sock.unread == old(sock.unread)[got..]
          && nextInFollow == old(nextIn) && nextRequestBegin == old(nextRequestBegin)
          && nextRequestSize == old(nextRequestSize) && nextRequestSaved == old(nextRequestSaved)
          && status
            == (if got == wanted then Ok else if nextIn == 0 then Timeout else if sock.closes then Ok else Error)
    {
      if !fromFilter && nextIn - nextOut >= length {
        CutBody(length, firstPostRead);
        return NoChange;
      }
      var wanted := if fromFilter then length else length - (nextIn - nextOut);
      nextInFollow := nextIn;
      status := RecvWanted(sock, wanted);
    }

    /** Makes room for `wanted` bytes and receives them. */
    method RecvWanted(sock: Socket, wanted: nat) returns (status: Input)
      requires Valid() && data.Length != 0
      modifies this`data, this`nextIn, data, sock
      ensures Valid() && (data == old(data) || fresh(data)) && data.Length != 0 && data[nextIn] == '\0'
      ensures var got := if wanted <= |old(sock.unread)| then wanted else |old(sock.unread)|;
        && Held() == old(Held()) + old(sock.unread)[..got] && sock.unread == old(sock.unread)[got..]
        && status == (if got == wanted then Ok else if nextIn == 0 then Timeout else if sock.closes then Ok else Error)
    {
      hide Held;
      GrowTo(wanted + 1);
      status := RecvExactly(sock, wanted);
      Terminate();
    }

    /** Makes room; what is held stays. */
    method GrowTo(n: nat)
      requires Valid()
      modifies this`data
      ensures Valid() && (data == old(data) || fresh(data)) && data.Length >= nextIn + n && data.Length > 0
      ensures Held() == old(Held())
    {
      ghost var held := Held();
      AllocMem(n);
      assert Held() == held;
    }

    /** All of the body has come: cut off what lies behind it, and put it aside if another request may begin there. */
    method CutBody(length: nat, firstPostRead: bool)
      requires Valid() && data.Length != 0 && nextIn - nextOut >= length
      modifies this`nextIn, this`nextInFollow, this`nextRequestBegin, this`nextRequestSize, this`nextRequestSaved, data
      ensures Valid() && nextInFollow == nextIn == nextOut + length && Held() == old(Held())[..nextIn]
      ensures data[nextIn] == '\0'
      ensures !(firstPostRead && |old(Raw())| > length + 2) ==>
        && nextRequestBegin == old(nextRequestBegin)
        && nextRequestSize == old(nextRequestSize) && nextRequestSaved == old(nextRequestSaved)
      ensures old(nextRequestBegin) == 0 ==>
        Pipelined() == if firstPostRead && |old(Raw())| > length + 2 && 0 < nextIn then old(Raw())[length..] else []
    {
      ghost var held := Held();
      if firstPostRead && nextIn - nextOut > length + 2 {
        PutAside(length);
      } else {
        nextInFollow, nextIn := nextOut + length, nextOut + length;
      }
      assert Held() == held[..nextIn];
      Terminate();
    }

    /** The bytes behind the body become the beginning of the next request; its first one gives way to a NUL. */
    method PutAside(length: nat)
      requires Valid() && data.Length != 0 && nextIn - nextOut > length
      modifies this`nextIn, this`nextInFollow, this`nextRequestBegin, this`nextRequestSize, this`nextRequestSaved
      ensures Valid() && nextInFollow == nextIn == nextOut + length == nextRequestBegin
      ensures nextRequestBegin != 0 ==> Pipelined() == old(Raw())[length..]
    {
      ghost var raw := Raw();
      nextRequestBegin := nextOut + length;
      nextRequestSize := nextIn - nextRequestBegin;
      nextInFollow, nextIn := nextRequestBegin, nextRequestBegin;
      nextRequestSaved := data[nextIn];
      assert raw[length..] == data[nextIn..nextIn + nextRequestSize];
      assert nextRequestBegin != 0 ==> Pipelined() == raw[length..];
    }

    lemma HeldLength()
      requires Valid()
      ensures |Held()| == nextIn
    {
    }

    static lemma TakeNothing(held: string, unread: string)
      ensures held + unread[..0] == held && unread[0..] == unread
    {
    }

    static lemma TakeFront(held: string, unread: string, k: nat)
      requires k <= |unread|
      ensures (held + unread[..k]) + unread[k..] == held + unread
    {
    }

    /** What has been received, and what has not, follow from how much has been. */
    static lemma ReceivedSoFar(held: string, unread: string, held': string, unread': string, got: nat)
      requires held' + unread' == held + unread && |held'| == |held| + got
      ensures got <= |unread| && held' == held + unread[..got] && unread' == unread[got..]
    {
      var all := held + unread;
      assert |all| == |held'| + |unread'|;
      assert all[..|held'|] == held' && all[|held'|..] == unread';
      assert all[..|held'|] == held + unread[..got] && all[|held'|..] == unread[got..];
    }

    /** Receives n bytes, or what the stream still has. */
    method RecvExactly(sock: Socket, n: nat) returns (status: Input)
      requires Valid() && nextIn + n < data.Length
      modifies this`nextIn, data, sock
      ensures Valid()
      ensures var got := if n <= |old(sock.unread)| then n else |old(sock.unread)|;
        && Held() == old(Held()) + old(sock.unread)[..got] && sock.unread == old(sock.unread)[got..]
        && status == (if got == n then Ok else if nextIn == 0 then Timeout else if sock.closes then Ok else Error)
    {
      hide Held;
      ghost var held, unread := Held(), sock.unread;
      var got;
      HeldLength();
      status, got := RecvUpTo(sock, n);
      HeldLength();
      ReceivedSoFar(held, unread, Held(), sock.unread, got);
    }

    method RecvUpTo(sock: Socket, n: nat) returns (status: Input, got: nat)
      requires Valid() && nextIn + n < data.Length
      modifies this`nextIn, data, sock
      ensures Valid() && Held() + sock.unread == old(Held() + sock.unread) && nextIn == old(nextIn) + got
      ensures got <= n && (got < n ==> sock.unread == [])
      ensures status == (if got == n then Ok else if nextIn == 0 then Timeout else if sock.closes then Ok else Error)
    {
      hide Held;
      var remaining: nat := n;
      while remaining != 0
        invariant Valid() && remaining <= n && nextIn == old(nextIn) + n - remaining
        invariant Held() + sock.unread == old(Held() + sock.unread)
        decreases remaining
      {
        var ready := sock.Select();
        if !ready {
          return if nextIn != 0 then Error else Timeout, n - remaining;
        }
        var available := sock.Available();
        var toRecv := if available < remaining then available else remaining;
        ghost var held, unread := Held(), sock.unread;
        var k := RecvMore(sock, toRecv);
        TakeFront(held, unread, k);
        if k == 0 {
          return if nextIn != 0 then Ok else Timeout, n - remaining;
        }
        remaining := remaining - k;
      }
      return Ok, n;
    }

    // ---------- Tokens ----------

    /** The received bytes, with the character under the terminating NUL put back. */
    ghost function Received(): string
      reads this, data
      requires Valid() && data.Length != 0
    {
      if saved == '\0' then data[..] else data[..][nextOut := saved]
    }

    method Restore()
      requires Valid() && data.Length != 0
      modifies this`saved, data
      ensures Valid() && saved == '\0' && data[..] == old(Received())
    {
      if saved != '\0' {
        data[nextOut] := saved;
        saved := '\0';
      }
    }

    /** Whether a token that is being read from `start` on stops before position k. */
    static ghost predicate StopsAt(t: string, k: nat, whiteSpace: bool, colon: bool)
      requires k < |t|
    {
      || t[k] == '\r' || t[k] == '\n'
      || (whiteSpace && (t[k] == ' ' || t[k] == '\t'))
      || (colon && k > 0 && t[k - 1] == ':')
    }

    /**
      Takes the next token off the input and makes it a C string: it lies at [start, nextOut) and a
      NUL follows it.  The bytes received are not lost: Received() is what it was.
    */
    method NextToken(whiteSpace: bool, colon: bool) returns (ok: bool, start: nat)
      requires Valid() && data.Length != 0
      modifies this`nextOut, this`saved, data
      ensures Valid() && Received() == old(Received())
      ensures var t := old(Received());
        && old(nextOut) <= start <= nextOut <= nextIn
        && (forall k :: old(nextOut) <= k < start ==> t[k] == ' ' || t[k] == '\t')
        && (start < nextIn ==> t[start] != ' ' && t[start] != '\t')
        && (forall k :: start <= k < nextOut ==> !StopsAt(t, k, whiteSpace, colon))
        && (nextOut < nextIn ==> StopsAt(t, nextOut, whiteSpace, colon))
        && data[start..nextOut] == t[start..nextOut]
      ensures ok <==> start < nextOut
      ensures if ok then data[nextOut] == '\0' else saved == '\0'
    {
      Restore();
      ghost var t := data[..];
      var i := nextOut;
      while i < nextIn && (data[i] == ' ' || data[i] == '\t')
        invariant nextOut <= i <= nextIn
        invariant forall k :: nextOut <= k < i ==> t[k] == ' ' || t[k] == '\t'
      {
        i := i + 1;
      }
      var j := i;
      while j < nextIn
        invariant i <= j <= nextIn
        invariant forall k :: i <= k < j ==> !StopsAt(t, k, whiteSpace, colon)
      {
        if data[j] == '\r' || data[j] == '\n' {
          break;
        }
        if whiteSpace && (data[j] == ' ' || data[j] == '\t') {
          break;
        }
        if colon && j > 0 && data[j - 1] == ':' {
          break;
        }
        j := j + 1;
      }
      nextOut := j;
      start := i;
      if i == j {
        return false, start;
      }
      saved := data[nextOut];
      data[nextOut] := '\0';
      return true, start;
    }

    static ghost predicate LineEndAt(t: string, k: nat)
      requires k + 1 < |t|
    {
      t[k] == '\r' && t[k + 1] == '\n'
    }

    /** Skips the rest of the line and its CRLF. */
    method NextLine() returns (ok: bool)
      requires Valid() && data.Length != 0
      modifies this`nextOut, this`saved, data
      ensures Valid() && Received() == old(Received()) && saved == '\0'
      ensures ok ==>
        && old(nextOut) + 2 <= nextOut && LineEndAt(Received(), nextOut - 2)
        && forall k :: old(nextOut) <= k < nextOut - 2 ==> !LineEndAt(Received(), k)
      ensures !ok ==> nextOut == old(nextOut) && forall k :: nextOut <= k < nextIn - 1 ==> !LineEndAt(Received(), k)
    {
      Restore();
      var i, j := nextOut, nextOut + 1;
      while j < nextIn
        invariant nextOut <= i && j == i + 1
        invariant forall k :: nextOut <= k < i && k < nextIn - 1 ==> !LineEndAt(data[..], k)
      {
        if data[i] == '\r' && data[j] == '\n' {
          nextOut := j + 1;
          return true;
        }
        i, j := i + 1, j + 1;
      }
      return false;
    }
  }

  /** The calls the header parser makes. */
  datatype Call = Token(whiteSpace: bool, colon: bool) | Line

  /** However the headers are tokenized, nothing received is lost. */
  method Tokenize(b: Buffer, calls: seq<Call>)
    requires b.Valid() && b.data.Length != 0
    modifies b`nextOut, b`saved, b.data
    ensures b.Valid() && b.Received() == old(b.Received())
  {
    for n := 0 to |calls|
      invariant b.Valid() && b.Received() == old(b.Received())
    {
      match calls[n]
      case Token(whiteSpace, colon) => var _, _ := b.NextToken(whiteSpace, colon);
      case Line => var _ := b.NextLine();
    }
  }

  /**
    Two requests in one packet: the body of the first is read, the buffer is reset, and the headers
    of the second are read.  They are judged as if the bytes behind the first body had just arrived.
  */
  method NextRequest(b: Buffer, sock: Socket, contentLength: nat, maxHeader: nat) returns (status: Input)
    requires b.Valid() && b.data.Length != 0 && b.nextRequestBegin == 0
    requires 0 < b.nextOut && contentLength + 2 < |b.Raw()| <= maxHeader
    modifies b, b.data, sock
    ensures b.Valid()
    ensures var stream := old(b.Raw())[contentLength..] + old(sock.unread);
      && status == Verdict(stream, maxHeader, sock.closes).0
      && (Verdict(stream, maxHeader, sock.closes).1 ==>
            && b.Held() + sock.unread == stream[LeadingSpace(stream)..]
            && BlockEnd(stream[LeadingSpace(stream)..], 0) <= b.nextIn)
  {
    status := b.RecvBody(sock, contentLength, false, true);
    b.Reset();
    status := b.RecvHeaders(sock, maxHeader);
  }
}
