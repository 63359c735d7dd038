/**
  Reading a request's header block from a secure connection: records are decrypted in place, their
  headers and trailers are squeezed out, and the bytes of an unfinished record wait behind the plain
  text.  What a record decrypts to is given by a function; how it does so is no part of this.
*/
module SecureBuffer {
  import opened CStrings
  import opened Wire
  import opened HeaderBlock
  import opened RequestBuffer

  /** What DecryptMessage makes of some bytes: the record they begin with, or word that some are missing. */
  datatype Message = Record(header: nat, plain: string, trailer: nat) | Incomplete | Failed

  /** The k-th record of a session, from the bytes there are. */
  type Decoder = (nat, string) -> Message

  datatype SecurityStatus = Complete | IncompleteMessage | Refused

  predicate Fits(m: Message, bytes: string) {
    m.Record? ==> 0 < m.header + |m.plain| + m.trailer <= |bytes|
  }

  /** More bytes do not change a record that is complete. */
  ghost predicate Settled(decode: Decoder, k: nat, bytes: string, more: string) {
    !decode(k, bytes).Incomplete? ==> decode(k, bytes + more) == decode(k, bytes)
  }

  ghost predicate IsCipher(decode: Decoder) {
    && (forall k: nat, bytes: string :: Fits(decode(k, bytes), bytes))
    && (forall k: nat, bytes: string, more: string :: Settled(decode, k, bytes, more))
  }

  /** The contents with `text` written at a position. */
  ghost predicate Overwritten(was: string, now: string, at: nat, text: string) {
    && at + |text| <= |was| == |now|
    && forall j {:trigger now[j]} :: 0 <= j < |now| ==> now[j] == if at <= j < at + |text| then text[j - at] else was[j]
  }

  /** The contents with n characters copied down. */
  ghost predicate Moved(was: string, now: string, to: nat, from: nat, n: nat) {
    && to <= from && from + n <= |was| == |now|
    && forall j {:trigger now[j]} :: 0 <= j < |now| ==>
      now[j] == if to <= j < to + n then was[j - to + from] else was[j]
  }

  /** The contents with the header and the trailer of a record squeezed out; what is behind does not matter. */
  ghost predicate Squeezed(was: string, now: string, at: nat, header: nat, plain: nat, trailer: nat, extra: nat) {
    && at + header + plain + trailer + extra <= |was| == |now|
    && (forall j {:trigger now[j]} :: at <= j < at + plain ==> now[j] == was[j + header])
    && (forall j {:trigger now[j]} :: at + plain <= j < at + plain + extra ==> now[j] == was[j + header + trailer])
    && (forall j {:trigger now[j]} :: 0 <= j < at ==> now[j] == was[j])
  }

  /** The security package's context: how many records it has decrypted. */
  class SecurityContext {
    var count: nat
    const decode: Decoder

    constructor (decode: Decoder)
      ensures count == 0 && this.decode == decode
    {
      count, this.decode := 0, decode;
    }

    /** Decrypts the record at `from` in place, if all of it is among the `len` bytes there. */
    method DecryptMessage(data: array<char>, from: nat, len: nat) returns (m: Message)
      requires IsCipher(decode) && from + len <= data.Length
      modifies this`count, data
      ensures m == decode(old(count), Part(old(data[..]), from, from + len))
      ensures Fits(m, Part(old(data[..]), from, from + len))
      ensures count == old(count) + if m.Record? then 1 else 0
      ensures !m.Record? ==> data[..] == old(data[..])
      ensures m.Record? ==> Overwritten(old(data[..]), data[..], from + m.header, m.plain)
    {
      var bytes := data[from..from + len];
      assert bytes == Part(data[..], from, from + len);
      m := decode(count, bytes);
      assert Fits(m, bytes);
      if m.Record? {
        forall i | 0 <= i < |m.plain| {
          data[from + m.header + i] := m.plain[i];
        }
        count := count + 1;
      }
    }
  }

  // ---------- The records of a stream ----------

  /** Plain text of the complete records, the bytes behind them, the number of records decrypted. */
  datatype Unwrapped = Unwrapped(plain: string, rest: string, count: nat, failed: bool)

  function Unwrap(decode: Decoder, k: nat, bytes: string): Unwrapped
    decreases |bytes|
  {
    if bytes == "" then Unwrapped("", "", k, false)
    else
      match decode(k, bytes)
      case Incomplete => Unwrapped("", bytes, k, false)
      case Failed => Unwrapped("", bytes, k, true)
      case Record(header, plain, trailer) =>
        var n := header + |plain| + trailer;
        if 0 < n <= |bytes| then Behind(plain, Unwrap(decode, k + 1, bytes[n..])) else Unwrapped("", bytes, k, true)
  }

  function Behind(plain: string, u: Unwrapped): Unwrapped {
    u.(plain := plain + u.plain)
  }

  lemma BehindTwice(a: string, b: string, u: Unwrapped)
    ensures Behind(a, Behind(b, u)) == Behind(a + b, u)
  {
    Regroup(a, b, u.plain);
  }

  lemma BehindEmpty(a: string, k: nat, rest: string, failed: bool)
    ensures Behind(a, Unwrapped("", rest, k, failed)) == Unwrapped(a, rest, k, failed)
  {
    assert a + "" == a;
  }

  lemma BehindNothing(u: Unwrapped)
    ensures Behind("", u) == u
  {
    assert "" + u.plain == u.plain;
  }

  /** The records of a stream do not depend on where it is cut: one goes on with the unfinished rest. */
  lemma {:induction false} UnwrapAppend(decode: Decoder, k: nat, a: string, b: string)
    requires IsCipher(decode) && !Unwrap(decode, k, a).failed
    ensures var u := Unwrap(decode, k, a);
      Unwrap(decode, k, a + b) == Behind(u.plain, Unwrap(decode, u.count, u.rest + b))
    decreases |a|
  {
    hide IsCipher;
    var u := Unwrap(decode, k, a);
    if a == "" {
      assert a + b == b;
      BehindNothing(Unwrap(decode, k, b));
    } else {
      CipherAt(decode, k, a, b);
      var m := decode(k, a);
      if m.Record? {
        var n := m.header + |m.plain| + m.trailer;
        assert (a + b)[n..] == a[n..] + b;
        UnwrapAppend(decode, k + 1, a[n..], b);
        var v := Unwrap(decode, k + 1, a[n..]);
        BehindTwice(m.plain, v.plain, Unwrap(decode, v.count, v.rest + b));
      } else {
        BehindNothing(Unwrap(decode, k, a + b));
      }
    }
  }

  lemma CipherAt(decode: Decoder, k: nat, a: string, b: string)
    requires IsCipher(decode)
    ensures Fits(decode(k, a), a) && Settled(decode, k, a, b)
  {
  }

  /** What is plain stays plain when more arrives. */
  lemma PlainGrows(decode: Decoder, k: nat, a: string, b: string)
    requires IsCipher(decode) && !Unwrap(decode, k, a).failed
    ensures Unwrap(decode, k, a).plain <= Unwrap(decode, k, a + b).plain
  {
    UnwrapAppend(decode, k, a, b);
  }

  // ---------- Decrypting in place ----------

  method MemMove(data: array<char>, to: nat, from: nat, n: nat)
    requires to <= from && from + n <= data.Length
    modifies data
    ensures Moved(old(data[..]), data[..], to, from, n)
  {
    forall i | 0 <= i < n {
      data[to + i] := data[from + i];
    }
  }

  /** Squeezes the header and the trailer of a decrypted record out. */
  method StripRecord(data: array<char>, at: nat, header: nat, plain: nat, trailer: nat, extra: nat)
    requires at + header + plain + trailer + extra <= data.Length
    modifies data
    ensures Squeezed(old(data[..]), data[..], at, header, plain, trailer, extra)
  {
    hide Moved, Squeezed;
    ghost var was := data[..];
    NotMoved(was, at, plain + trailer + extra);
    if header != 0 {
      MemMove(data, at, at + header, plain + trailer + extra);
    }
    ghost var mid := data[..];
    NotMoved(mid, at + plain, extra);
    Emptied(mid, at + plain, at + plain + trailer);
    if extra != 0 && trailer != 0 {
      MemMove(data, at + plain, at + plain + trailer, extra);
    }
    SqueezedByMoves(was, mid, data[..], at, header, plain, trailer, extra);
  }

  lemma NotMoved(was: string, at: nat, n: nat)
    requires at + n <= |was|
    ensures Moved(was, was, at, at, n)
  {
  }

  lemma Emptied(was: string, to: nat, from: nat)
    requires to <= from <= |was|
    ensures Moved(was, was, to, from, 0)
  {
  }

  lemma SqueezedByMoves(was: string, mid: string, now: string, at: nat, header: nat, plain: nat, trailer: nat,
      extra: nat)
    requires at + header + plain + trailer + extra <= |was|
    requires Moved(was, mid, at, at + header, plain + trailer + extra)
    requires Moved(mid, now, at + plain, at + plain + trailer, extra)
    ensures Squeezed(was, now, at, header, plain, trailer, extra)
  {
    forall j | at <= j < at + plain ensures now[j] == was[j + header] {
      assert now[j] == mid[j];
    }
    forall j | at + plain <= j < at + plain + extra ensures now[j] == was[j + header + trailer] {
      assert now[j] == mid[j + trailer];
    }
    forall j | 0 <= j < at ensures now[j] == was[j] {
      assert now[j] == mid[j];
    }
  }

  /** SSLDecrypt: decrypts the complete records among the `len` bytes at `from`, and closes the gaps. */
  method SSLDecrypt(sec: SecurityContext, data: array<char>, from: nat, len: nat)
    returns (status: SecurityStatus, decrypted: nat, offset: nat, ignore: nat)
    requires IsCipher(sec.decode) && len > 0 && from + len <= data.Length
    modifies sec`count, data
    ensures var u := Unwrap(sec.decode, old(sec.count), Part(old(data[..]), from, from + len));
      && status == (if u.failed then Refused else if u.rest == "" then Complete else IncompleteMessage)
      && (!u.failed ==>
            && decrypted == |u.plain| && offset == |u.rest|
            && decrypted + offset + ignore == len && sec.count == u.count
            && Part(data[..], from, from + decrypted) == u.plain
            && Part(data[..], from + decrypted, from + decrypted + offset) == u.rest)
    ensures Part(data[..], 0, from) == Part(old(data[..]), 0, from)
  {
    hide IsCipher, Unwrap, Fits, Part, Behind, SkipRecord;
    decrypted, ignore, offset := 0, 0, 0;
    var at, cb := from, len;
    ghost var done, rest := Part(data[..], from, from), Part(data[..], from, from + len);
    ghost var whole := Unwrap(sec.decode, sec.count, rest);
    BehindNothing(whole);
    while true
      invariant at == from + decrypted && cb > 0 && decrypted + ignore + cb == len && at + cb <= data.Length
      invariant Part(data[..], 0, from) == Part(old(data[..]), 0, from)
      invariant Part(data[..], from, at) == done && Part(data[..], at, at + cb) == rest
      invariant whole == Behind(done, Unwrap(sec.decode, sec.count, rest))
      decreases cb
    {
      var m, extra;
      m, extra, done, rest := DecryptNext(sec, data, from, at, cb, done, rest, whole);
      if !m.Record? {
        status := if m.Failed? then Refused else IncompleteMessage;
        break;
      }
      decrypted := decrypted + |m.plain|;
      ignore := ignore + m.header + m.trailer;
      at, cb := at + |m.plain|, extra;
      if extra == 0 {
        UnwrapOne(sec.decode, sec.count, rest);
        BehindEmpty(done, sec.count, "", false);
        status := Complete;
        break;
      }
    }
    assert whole == Unwrapped(done, rest, sec.count, status == Refused);
    offset := len - decrypted - ignore;
  }

  /** One record further: `done` is decrypted, `rest` is not, and together they make up `whole`. */
  method DecryptNext(sec: SecurityContext, data: array<char>, from: nat, at: nat, cb: nat, ghost done: string,
      ghost rest: string, ghost whole: Unwrapped)
    returns (m: Message, extra: nat, ghost done': string, ghost rest': string)
    requires IsCipher(sec.decode) && from <= at && at + cb <= data.Length && cb > 0
    requires Part(data[..], from, at) == done && Part(data[..], at, at + cb) == rest
    requires whole == Behind(done, Unwrap(sec.decode, sec.count, rest))
    modifies sec`count, data
    ensures Part(data[..], 0, from) == Part(old(data[..]), 0, from)
    ensures if m.Record?
      then
        && extra < cb && m.header + |m.plain| + m.trailer + extra == cb
        && Part(data[..], from, at + |m.plain|) == done'
        && Part(data[..], at + |m.plain|, at + |m.plain| + extra) == rest'
        && whole == Behind(done', Unwrap(sec.decode, sec.count, rest'))
      else
        && done' == done && rest' == rest && data[..] == old(data[..])
        && whole == Unwrapped(done, rest, sec.count, m.Failed?)
  {
    hide IsCipher, Unwrap, Fits, Part, Behind, SkipRecord;
    UnwrapStep(sec.decode, sec.count, done, rest);
    m, extra := DecryptOne(sec, data, from, at, cb);
    done', rest' := done, rest;
    if m.Record? {
      rest' := SkipRecord(rest, m.header + |m.plain| + m.trailer);
      JoinParts(data[..], from, at, at + |m.plain|);
      done' := done + m.plain;
    }
  }

  /** One call of DecryptMessage, and the cleaning up behind it. */
  method DecryptOne(sec: SecurityContext, data: array<char>, from: nat, at: nat, cb: nat)
    returns (m: Message, extra: nat)
    requires IsCipher(sec.decode) && from <= at && at + cb <= data.Length
    modifies sec`count, data
    ensures m == sec.decode(old(sec.count), Part(old(data[..]), at, at + cb))
    ensures Part(data[..], 0, from) == Part(old(data[..]), 0, from)
    ensures Part(data[..], from, at) == Part(old(data[..]), from, at)
    ensures !m.Record? ==> extra == cb && data[..] == old(data[..]) && sec.count == old(sec.count)
    ensures m.Record? ==>
      && sec.count == old(sec.count) + 1 && extra < cb && m.header + |m.plain| + m.trailer + extra == cb
      && Part(data[..], at, at + |m.plain|) == m.plain
      && Part(data[..], at + |m.plain|, at + |m.plain| + extra)
        == SkipRecord(Part(old(data[..]), at, at + cb), m.header + |m.plain| + m.trailer)
  {
    hide IsCipher, Part, Overwritten, Squeezed;
    ghost var was := data[..];
    m := sec.DecryptMessage(data, at, cb);
    extra := cb;
    if m.Record? {
      extra := cb - (m.header + |m.plain| + m.trailer);
      ghost var mid := data[..];
      StripRecord(data, at, m.header, |m.plain|, m.trailer, extra);
      Stripped(was, mid, data[..], from, at, m.header, m.plain, m.trailer, extra);
    }
  }

  /** The contents before decryption, after it, and after the cleaning up. */
  lemma Stripped(was: string, mid: string, now: string, from: nat, at: nat, header: nat, plain: string,
      trailer: nat, extra: nat)
    requires from <= at && Overwritten(was, mid, at + header, plain)
    requires Squeezed(mid, now, at, header, |plain|, trailer, extra)
    ensures Part(now, 0, from) == Part(was, 0, from) && Part(now, from, at) == Part(was, from, at)
    ensures Part(now, at, at + |plain|) == plain
    ensures Part(now, at + |plain|, at + |plain| + extra) ==
      SkipRecord(Part(was, at, at + header + |plain| + trailer + extra), header + |plain| + trailer)
  {
    hide Part, Overwritten, Squeezed, SkipRecord;
    StrippedAt(was, mid, now, at, header, plain, trailer, extra, 0);
    forall j | 0 <= j < at ensures now[j] == was[j] {
      StrippedAt(was, mid, now, at, header, plain, trailer, extra, j);
    }
    SameUpTo(was, now, 0, 0, from);
    SameUpTo(was, now, from, from, at - from);
    forall j | at <= j < at + |plain| ensures now[j] == plain[j - at] {
      StrippedAt(was, mid, now, at, header, plain, trailer, extra, j);
    }
    SameUpTo(plain, now, 0, at, |plain|);
    WholePart(plain);
    var n := header + |plain| + trailer;
    forall j | at + |plain| <= j < at + |plain| + extra ensures now[j] == was[j + header + trailer] {
      StrippedAt(was, mid, now, at, header, plain, trailer, extra, j);
    }
    SameUpTo(was, now, at + n, at + |plain|, extra);
    RestOfPart(was, at, at + n + extra, n);
    SkipIs(Part(was, at, at + n + extra), n);
  }

  lemma SkipIs(bytes: string, n: nat)
    requires n <= |bytes|
    ensures SkipRecord(bytes, n) == bytes[n..]
  {
  }

  lemma StrippedAt(was: string, mid: string, now: string, at: nat, header: nat, plain: string, trailer: nat,
      extra: nat, j: nat)
    requires Overwritten(was, mid, at + header, plain) && Squeezed(mid, now, at, header, |plain|, trailer, extra)
    ensures at + header + |plain| + trailer + extra <= |was| == |now|
    ensures j < at ==> now[j] == was[j]
    ensures at <= j < at + |plain| ==> now[j] == plain[j - at]
    ensures at + |plain| <= j < at + |plain| + extra ==> now[j] == was[j + header + trailer]
  {
    if j < at {
      assert mid[j] == was[j];
    } else if j < at + |plain| {
      assert mid[j + header] == plain[j - at];
    } else if j < at + |plain| + extra {
      assert mid[j + header + trailer] == was[j + header + trailer];
    }
  }

  lemma SameUpTo(a: string, b: string, i: nat, k: nat, n: nat)
    requires i + n <= |a| && k + n <= |b| && forall j {:trigger b[j]} :: k <= j < k + n ==> b[j] == a[j - k + i]
    ensures Part(b, k, k + n) == Part(a, i, i + n)
  {
    var x, y := b[k..k + n], a[i..i + n];
    forall j | 0 <= j < |x| ensures x[j] == y[j] {
      assert x[j] == b[k + j];
    }
  }

  lemma UnwrapOne(decode: Decoder, k: nat, bytes: string)
    requires IsCipher(decode)
    ensures bytes == "" ==> Unwrap(decode, k, bytes) == Unwrapped("", "", k, false)
    ensures bytes != "" ==> Unwrap(decode, k, bytes) == match decode(k, bytes)
      case Incomplete => Unwrapped("", bytes, k, false)
      case Failed => Unwrapped("", bytes, k, true)
      case Record(header, plain, trailer) =>
        Behind(plain, Unwrap(decode, k + 1, SkipRecord(bytes, header + |plain| + trailer)))
  {
    CipherAt(decode, k, bytes, "");
  }

  lemma UnwrapStep(decode: Decoder, k: nat, done: string, rest: string)
    requires IsCipher(decode) && rest != ""
    ensures var m := decode(k, rest);
      Behind(done, Unwrap(decode, k, rest)) == if m.Record?
        then Behind(done + m.plain, Unwrap(decode, k + 1, SkipRecord(rest, m.header + |m.plain| + m.trailer)))
        else Unwrapped(done, rest, k, m.Failed?)
  {
    hide IsCipher, Unwrap, Behind, SkipRecord;
    UnwrapOne(decode, k, rest);
    var m := decode(k, rest);
    if m.Record? {
      BehindTwice(done, m.plain, Unwrap(decode, k + 1, SkipRecord(rest, m.header + |m.plain| + m.trailer)));
    } else {
      BehindEmpty(done, k, rest, m.Failed?);
    }
  }

  function SkipRecord(bytes: string, n: nat): string {
    if n <= |bytes| then bytes[n..] else ""
  }

  // ---------- Reading the header block ----------

  /**
    The plain text edge.  Of what has arrived so far, the buffer holds the plain text of the complete
    records up to nextDecrypt, and behind it, up to nextIn, the bytes of the unfinished one.
  */
  ghost predicate Edge(b: Buffer, sec: SecurityContext, k: nat, wire: string, offset: nat)
    reads b, b.data, sec
  {
    var u := Unwrap(sec.decode, k, wire);
    && b.Valid() && b.nextOut == 0 && b.nextRequestBegin == 0
    && !u.failed && sec.count == u.count
    && b.nextDecrypt == |u.plain| && offset == |u.rest| && b.Held() == u.plain + u.rest
  }

  lemma EdgeIsNextIn(b: Buffer, sec: SecurityContext, k: nat, wire: string, offset: nat)
    requires Edge(b, sec, k, wire, offset)
    ensures b.nextIn == b.nextDecrypt + offset && b.data[..b.nextDecrypt] == Unwrap(sec.decode, k, wire).plain
  {
    assert b.Held() == b.data[..b.nextIn];
    assert b.data[..b.nextDecrypt] == b.Held()[..b.nextDecrypt];
  }

  /** Decrypts what there is after `arrived` has come in behind nextIn. */
  method DecryptArrived(b: Buffer, sec: SecurityContext, offset: nat, recv: nat, ghost k: nat, ghost wire: string,
      ghost arrived: string)
    returns (ok: bool, offset': nat)
    requires IsCipher(sec.decode) && Edge(b, sec, k, wire, offset) && recv == |arrived| > 0
    requires b.nextIn + recv < b.data.Length && Part(b.data[..], b.nextIn, b.nextIn + recv) == arrived
    modifies b`nextIn, b`nextDecrypt, b.data, sec`count
    ensures b.Valid() && (ok <==> !Unwrap(sec.decode, k, wire + arrived).failed)
    ensures ok ==> Edge(b, sec, k, wire + arrived, offset')
    ensures ok ==> b.nextIn <= old(b.nextIn) + recv && b.nextDecrypt >= old(b.nextDecrypt)
  {
    hide IsCipher, Unwrap, Part;
    ghost var u := Unwrap(sec.decode, k, wire);
    UnwrapAppend(sec.decode, k, wire, arrived);
    Encrypted(b, u, offset, recv, arrived);
    var at := b.nextDecrypt;
    var status, decrypted, offset1, ignore := SSLDecrypt(sec, b.data, at, offset + recv);
    ok, offset' := status != Refused, offset1;
    if !ok {
      return;
    }
    b.nextDecrypt := b.nextDecrypt + decrypted;
    var iRecv: int := recv;
    if status == Complete {
      iRecv := decrypted - offset;
    } else {
      iRecv := iRecv - ignore;
    }
    b.nextIn := b.nextIn + iRecv;
    JoinParts(b.data[..], 0, at, at + decrypted);
    JoinParts(b.data[..], 0, at + decrypted, b.nextIn);
    HeldIs(b);
  }

  lemma HeldIs(b: Buffer)
    requires b.Valid()
    ensures b.Held() == Part(b.data[..], 0, b.nextIn)
  {
  }

  /** What is decrypted next is the unfinished record and what has arrived. */
  lemma Encrypted(b: Buffer, u: Unwrapped, offset: nat, recv: nat, arrived: string)
    requires b.Valid() && b.Held() == u.plain + u.rest && b.nextDecrypt == |u.plain| && offset == |u.rest|
    requires b.nextIn + recv < b.data.Length && Part(b.data[..], b.nextIn, b.nextIn + recv) == arrived
    ensures b.nextIn == b.nextDecrypt + offset && Part(b.data[..], 0, b.nextDecrypt) == u.plain
    ensures Part(b.data[..], b.nextDecrypt, b.nextDecrypt + (offset + recv)) == u.rest + arrived
  {
    hide Part;
    HeldIs(b);
    var at := |u.plain|;
    assert |b.Held()| == b.nextIn;
    JoinParts(b.data[..], 0, at, b.nextIn);
    SameParts(Part(b.data[..], 0, at), Part(b.data[..], at, b.nextIn), u.plain, u.rest);
    JoinParts(b.data[..], at, b.nextIn, b.nextIn + recv);
  }

  lemma SameParts(a: string, b: string, c: string, d: string)
    requires a + b == c + d && |a| == |c|
    ensures a == c && b == d
  {
    assert (a + b)[..|a|] == a && (a + b)[|a|..] == b;
    assert (c + d)[..|c|] == c && (c + d)[|c|..] == d;
  }

  /** The plain text read so far, without its unfinished rest, has no blank line before `scan`. */
  ghost predicate Scanned(plain: string, scan: nat) {
    (scan == 0 || scan + 3 <= |plain|) && forall i :: 0 <= i < scan ==> !BlankLineAt(plain, i)
  }

  /** Looks for the blank line in the plain text. */
  method ScanPlain(b: Buffer, from: nat, ghost plain: string) returns (at: nat, found: bool)
    requires b.Valid() && 0 <= b.nextDecrypt <= b.nextIn && plain == b.data[..b.nextDecrypt] && Scanned(plain, from)
    ensures Scanned(plain, at) && (found ==> BlankLineAt(plain, at)) && (!found ==> at + 3 >= |plain| && at >= from)
  {
    at := from;
    while at + 3 < b.nextDecrypt
      invariant from <= at && Scanned(plain, at)
      decreases b.nextDecrypt - at
    {
      if b.data[at] == '\r' && b.data[at + 1] == '\n' && b.data[at + 2] == '\r' && b.data[at + 3] == '\n' {
        return at, true;
      }
      at := at + 1;
    }
    return at, false;
  }

  /** Receives behind what is held; nextIn stays. */
  method ReceiveBehind(b: Buffer, sock: Socket, n: nat) returns (k: nat)
    requires b.Valid() && b.nextIn + n < b.data.Length && b.nextRequestBegin == 0
    modifies b.data, sock
    ensures b.Valid() && b.Held() == old(b.Held())
    ensures k <= n && k <= |old(sock.unread)| && (n > 0 && old(sock.unread) != [] ==> k > 0)
    ensures Part(b.data[..], b.nextIn, b.nextIn + k) == old(sock.unread)[..k] && sock.unread == old(sock.unread)[k..]
  {
    ghost var was := b.data[..b.nextIn];
    k := sock.Recv(b.data, b.nextIn, n);
    assert b.data[..b.nextIn] == was;
    assert b.data[..][b.nextIn..b.nextIn + k] == old(sock.unread)[..k];
  }

  /** Waits for more and receives it behind nextIn; `end` says that there is no more, or no room. */
  method RecvRecords(b: Buffer, sec: SecurityContext, sock: Socket, max: nat, ghost k: nat, ghost wire: string,
      ghost offset: nat)
    returns (end: bool, status: Input, recv: nat)
    requires Edge(b, sec, k, wire, offset)
    modifies b`data, b.data, sock
    ensures Edge(b, sec, k, wire, offset) && (b.data == old(b.data) || fresh(b.data))
    ensures end ==> sock.unread == old(sock.unread) && (max <= b.nextIn || sock.unread == [])
    ensures end ==> status == NoBlockStatus(b.nextIn, max, sock.closes)
    ensures !end ==>
      && 0 < recv <= |old(sock.unread)| && b.nextIn + recv < b.data.Length && b.nextIn + recv <= max
      && Part(b.data[..], b.nextIn, b.nextIn + recv) == old(sock.unread)[..recv]
      && sock.unread == old(sock.unread)[recv..]
  {
    hide Unwrap, Part;
    ghost var held := b.Held();
    recv := 0;
    if max <= b.nextIn {
      return true, Input.Error, recv;
    }
    var ready := sock.Select();
    if !ready {
      return true, if b.nextIn != 0 then Input.Error else Timeout, recv;
    }
    var available := sock.Available();
    var toRecv := if available + b.nextIn > max then max - b.nextIn else available;
    b.AllocMem(toRecv + 1);
    assert b.Held() == held;
    recv := ReceiveBehind(b, sock, toRecv);
    if recv == 0 {
      return true, if b.nextIn != 0 then Input.Ok else Timeout, recv;
    }
    return false, Input.Ok, recv;
  }

  lemma EdgeAtStart(b: Buffer, sec: SecurityContext)
    requires b.Valid() && b.nextRequestBegin == 0 && b.nextIn == 0 && b.nextOut == 0 && b.nextDecrypt == 0
    ensures Edge(b, sec, sec.count, "", 0) && !Unwrap(sec.decode, sec.count, "").failed
    ensures Scanned(Unwrap(sec.decode, sec.count, "").plain, 0)
  {
  }

  lemma EdgeFacts(b: Buffer, sec: SecurityContext, k: nat, wire: string, offset: nat)
    requires Edge(b, sec, k, wire, offset)
    ensures b.Valid() && 0 <= b.nextDecrypt <= b.nextIn && b.data[..b.nextDecrypt] == Unwrap(sec.decode, k, wire).plain
    ensures !Unwrap(sec.decode, k, wire).failed
  {
    EdgeIsNextIn(b, sec, k, wire, offset);
  }

  /** Text that does not begin with white space is not trimmed. */
  method TrimPlain(b: Buffer, sec: SecurityContext, ghost k: nat, ghost wire: string, ghost offset: nat, scan: nat)
    requires Edge(b, sec, k, wire, offset) && b.nextDecrypt > 0 && !IsSpace(Unwrap(sec.decode, k, wire).plain[0])
    modifies b`nextIn, b.data
    ensures Edge(b, sec, k, wire, offset)
  {
    hide Unwrap;
    ghost var held := b.Held();
    if scan == 0 && b.nextIn > 0 {
      assert held[0] == Unwrap(sec.decode, k, wire).plain[0];
      var goOn, abort := b.TrimWhiteSpace();
      assert b.Held() == held;
    }
  }

  /**
    Text that does begin with white space is moved down, but nextDecrypt is not: the plain text edge is
    then wrong by as many bytes as were trimmed.
  */
  method TrimSpacedPlain(b: Buffer, sec: SecurityContext, ghost k: nat, ghost wire: string, ghost offset: nat)
    returns (goOn: bool)
    requires Edge(b, sec, k, wire, offset) && b.nextDecrypt > 0
    requires LeadingSpace(b.Held()) < MAX_WHITESPACE_READ && LeadingSpace(b.Held()) < b.nextIn
    modifies b`nextIn, b.data
    ensures b.nextIn == b.nextDecrypt + offset - LeadingSpace(old(b.Held()))
    ensures LeadingSpace(old(b.Held())) > 0 ==> !Edge(b, sec, k, wire, offset)
  {
    hide Unwrap, LeadingSpace;
    var abort;
    ghost var held := b.Held();
    assert |held| == b.nextIn;
    goOn, abort := b.TrimWhiteSpace();
    assert |b.Held()| == b.nextIn;
  }

  lemma ScanGoesOn(plain: string, more: string, scan: nat)
    requires Scanned(plain, scan) && plain <= more
    ensures Scanned(more, scan)
  {
    assert forall i :: 0 <= i < scan && BlankLineAt(more, i) ==> BlankLineAt(plain, i);
  }

  lemma WireGoesOn(wire: string, unread: string, recv: nat)
    requires recv <= |unread|
    ensures (wire + unread[..recv]) + unread[recv..] == wire + unread
  {
    Regroup(wire, unread[..recv], unread[recv..]);
  }

  lemma BlockFound(plain: string, scan: nat)
    requires Scanned(plain, scan) && BlankLineAt(plain, scan)
    ensures BlockEnd(plain, 0) > 0
  {
    BlockEndOfPrefix(plain, "", scan);
    assert plain + "" == plain;
  }

  lemma NoBlockFound(plain: string, scan: nat)
    requires Scanned(plain, scan) && scan + 3 >= |plain|
    ensures BlockEnd(plain, 0) == 0
  {
    assert forall i :: 0 <= i ==> !BlankLineAt(plain, i);
  }

  /**
    Reads a header block from a secure connection.  After every pass the plain text edge is where it
    should be, however the records were cut; a block is found only in plain text; and the plain text is
    the beginning of what the whole stream decrypts to.  `wire` is what has been received.
  */
  method RecvSecureHeaders(b: Buffer, sec: SecurityContext, sock: Socket, max: nat)
    returns (status: Input, found: bool, offset: nat, ghost wire: string)
    requires IsCipher(sec.decode) && b.Valid() && b.nextRequestBegin == 0
    requires b.nextIn == 0 && b.nextOut == 0 && b.nextDecrypt == 0
    requires Unwrap(sec.decode, sec.count, sock.unread).plain != "" ==>
      !IsSpace(Unwrap(sec.decode, sec.count, sock.unread).plain[0])
    modifies b, b.data, sock, sec`count
    ensures wire + sock.unread == old(sock.unread)
    ensures b.Valid() && (b.data.Length != 0 ==> b.data[b.nextIn] == '\0')
    ensures var u := Unwrap(sec.decode, old(sec.count), wire);
      if u.failed then status == Input.Error && !found
      else
        && Edge(b, sec, old(sec.count), wire, offset)
        && u.plain <= Unwrap(sec.decode, old(sec.count), old(sock.unread)).plain
        && (if found then status == Input.Ok && BlockEnd(u.plain, 0) > 0
            else BlockEnd(u.plain, 0) == 0 && (max <= b.nextIn || sock.unread == [])
                 && status == NoBlockStatus(b.nextIn, max, sock.closes))
  {
    hide IsCipher, Unwrap, BlockEnd;
    status, found, offset, wire := RecvSecureLoop(b, sec, sock, max);
    b.Terminate();
  }

  /** The loop over the receives. */
  method RecvSecureLoop(b: Buffer, sec: SecurityContext, sock: Socket, max: nat)
    returns (status: Input, found: bool, offset: nat, ghost wire: string)
    requires IsCipher(sec.decode) && b.Valid() && b.nextRequestBegin == 0
    requires b.nextIn == 0 && b.nextOut == 0 && b.nextDecrypt == 0
    requires Unwrap(sec.decode, sec.count, sock.unread).plain != "" ==>
      !IsSpace(Unwrap(sec.decode, sec.count, sock.unread).plain[0])
    modifies b, b.data, sock, sec`count
    ensures wire + sock.unread == old(sock.unread)
    ensures b.Valid() && (b.data == old(b.data) || fresh(b.data))
    ensures var u := Unwrap(sec.decode, old(sec.count), wire);
      if u.failed then status == Input.Error && !found
      else
        && Edge(b, sec, old(sec.count), wire, offset)
        && u.plain <= Unwrap(sec.decode, old(sec.count), old(sock.unread)).plain
        && (if found then status == Input.Ok && BlockEnd(u.plain, 0) > 0
            else BlockEnd(u.plain, 0) == 0 && (max <= b.nextIn || sock.unread == [])
                 && status == NoBlockStatus(b.nextIn, max, sock.closes))
  {
    hide IsCipher, Unwrap, Edge, Part, Scanned, BlockEnd;
    ghost var k, stream := sec.count, sock.unread;
    wire, offset, found := "", 0, false;
    var scan := 0;
    EdgeAtStart(b, sec);
    assert wire + sock.unread == stream;
    while true
      invariant wire + sock.unread == stream && !found
      invariant Edge(b, sec, k, wire, offset) && !Unwrap(sec.decode, k, wire).failed
      invariant Scanned(Unwrap(sec.decode, k, wire).plain, scan)
      invariant b.data == old(b.data) || fresh(b.data)
      decreases |sock.unread|
    {
      ghost var plain := Unwrap(sec.decode, k, wire).plain;
      PlainGrows(sec.decode, k, wire, sock.unread);
      EdgeFacts(b, sec, k, wire, offset);
      if b.nextDecrypt > 0 {
        TrimPlain(b, sec, k, wire, offset, scan);
        EdgeFacts(b, sec, k, wire, offset);
        scan, found := ScanPlain(b, scan, plain);
        if found {
          BlockFound(plain, scan);
          return Input.Ok, found, offset, wire;
        }
      }
      var end, recv;
      ghost var unread := sock.unread;
      end, status, recv := RecvRecords(b, sec, sock, max, k, wire, offset);
      EdgeFacts(b, sec, k, wire, offset);
      if end {
        NoBlockFound(plain, scan);
        return status, found, offset, wire;
      }
      ghost var arrived := Part(b.data[..], b.nextIn, b.nextIn + recv);
      WireGoesOn(wire, unread, recv);
      PlainGrows(sec.decode, k, wire, arrived);
      ScanGoesOn(plain, Unwrap(sec.decode, k, wire + arrived).plain, scan);
      var ok;
      ok, offset := DecryptArrived(b, sec, offset, recv, k, wire, arrived);
      wire := wire + arrived;
      if !ok {
        return Input.Error, found, offset, wire;
      }
    }
  }
}
