/** Lock tokens as text: printing one for a client, and reading the id back. */
module LockTokens {
  import opened CStrings

  const TOKEN_PREFIX: string := "opaquelocktoken:"
  const GUID_LENGTH: nat := 36

  // ---------- Numbers ----------

  function Digit(n: nat): (c: char)
    requires n < 10
    ensures IsDigit(c) && c as int - '0' as int == n
  {
    ('0' as int + n) as char
  }

  function Decimal(n: nat): (s: string)
    ensures s != [] && forall i :: 0 <= i < |s| ==> IsDigit(s[i])
  {
    if n < 10 then [Digit(n)] else Decimal(n / 10) + [Digit(n % 10)]
  }

  /** sprintf's "%I64d". */
  function Int64Text(i: int): string {
    if i < 0 then "-" + Decimal(-i) else Decimal(i)
  }

  /** What a signed 64-bit variable makes of n. */
  function WrapInt64(n: int): int {
    (n + 0x8000_0000_0000_0000) % 0x1_0000_0000_0000_0000 - 0x8000_0000_0000_0000
  }

  /** The number that the digits s begins with append to `sum`. */
  function DigitsValue(s: string, sum: nat): (v: nat)
    decreases |s|
  {
    if s == [] || !IsDigit(s[0]) then sum else DigitsValue(s[1..], 10 * sum + (s[0] as int - '0' as int))
  }

  /** _atoi64: white space, a sign, digits; the rest does not matter. */
  function Atoi64(s: string): int {
    var t := SkipSpace(s);
    if t != [] && t[0] == '-' then WrapInt64(0 - DigitsValue(t[1..], 0))
    else if t != [] && t[0] == '+' then WrapInt64(DigitsValue(t[1..], 0))
    else WrapInt64(DigitsValue(t, 0))
  }

  lemma {:induction false} DigitsValueAppend(s: string, d: nat, sum: nat)
    requires d < 10 && forall i :: 0 <= i < |s| ==> IsDigit(s[i])
    ensures DigitsValue(s + [Digit(d)], sum) == 10 * DigitsValue(s, sum) + d
    decreases |s|
  {
    var t := s + [Digit(d)];
    if s == [] {
      assert t[1..] == [];
    } else {
      assert t[1..] == s[1..] + [Digit(d)];
      DigitsValueAppend(s[1..], d, 10 * sum + (s[0] as int - '0' as int));
    }
  }

  lemma {:induction false} DecimalValue(n: nat)
    ensures DigitsValue(Decimal(n), 0) == n
  {
    if n < 10 {
      assert Decimal(n)[1..] == [];
    } else {
      DecimalValue(n / 10);
      DigitsValueAppend(Decimal(n / 10), n % 10, 0);
    }
  }

  predicate IsInt64(i: int) {
    -0x8000_0000_0000_0000 <= i < 0x8000_0000_0000_0000
  }

  lemma WrapFits(i: int)
    requires IsInt64(i)
    ensures WrapInt64(i) == i
  {
  }

  lemma Int64RoundTrip(i: int)
    requires IsInt64(i)
    ensures Atoi64(Int64Text(i)) == i
  {
    hide WrapInt64, DigitsValue, Decimal;
    var s := Int64Text(i);
    WrapFits(i);
    DecimalValue(if i < 0 then -i else i);
    assert SkipSpace(s) == s;
    if i < 0 {
      assert s[1..] == Decimal(-i);
    } else {
      assert IsDigit(s[0]);
    }
  }

  // ---------- Tokens ----------

  /** The text of a GUID; the server makes one at start-up. */
  predicate IsGuid(guid: string) {
    |guid| == GUID_LENGTH && forall c :: c in guid ==> IsDigit(c) || 'A' <= c <= 'F' || 'a' <= c <= 'f' || c == '-'
  }

  lemma GuidForm()
    ensures IsGuid("01234567-89AB-CDEF-abcd-ef0123456789")
  {
  }

  function WriteOpaqueLockToken(guid: string, id: int, brackets: bool): string {
    (if brackets then "<" else "") + TOKEN_PREFIX + guid + ":" + Int64Text(id) + (if brackets then ">" else "")
  }

  /** The id in a token of this server, or 0. */
  function GetLockIDFromOpaqueHeader(guid: string, token: string): int {
    if !StartsNoCase(token, TOKEN_PREFIX) then 0
    else
      var t := token[|TOKEN_PREFIX|..];
      if !StartsNoCase(t, guid) then 0
      else
        var u := t[|guid|..];
        if u == [] || u[0] != ':' then 0 else Atoi64(u[1..])
  }

  /**
    Reading back a printed token gives its id, for every 64-bit id; in a changed case too.  (The id 0
    reads as a failure, but it is never given out.)
  */
  lemma TokenRoundTrip(guid: string, id: int, text: string)
    requires IsInt64(id)
    requires |text| == |WriteOpaqueLockToken(guid, id, false)|
    requires StartsNoCase(text, WriteOpaqueLockToken(guid, id, false))
    ensures GetLockIDFromOpaqueHeader(guid, text) == id
  {
    hide Int64Text, Atoi64;
    var printed := TOKEN_PREFIX + guid + ":" + Int64Text(id);
    assert WriteOpaqueLockToken(guid, id, false) == printed;
    forall i | 0 <= i < |TOKEN_PREFIX| ensures ToLower(text[i]) == ToLower(TOKEN_PREFIX[i]) {
      assert printed[i] == TOKEN_PREFIX[i];
    }
    var t, p := text[|TOKEN_PREFIX|..], |TOKEN_PREFIX|;
    forall i | 0 <= i < |guid| ensures ToLower(t[i]) == ToLower(guid[i]) {
      assert printed[p + i] == guid[i] && t[i] == text[p + i];
    }
    var u := t[|guid|..];
    assert printed[p + |guid|] == ':' && u[0] == text[p + |guid|];
    NumberHasNoCase(id);
    forall i | 0 <= i < |Int64Text(id)| ensures u[1..][i] == Int64Text(id)[i] {
      assert printed[p + |guid| + 1 + i] == Int64Text(id)[i] && u[1..][i] == text[p + |guid| + 1 + i];
      assert ToLower(text[p + |guid| + 1 + i]) == ToLower(printed[p + |guid| + 1 + i]);
    }
    assert u[1..] == Int64Text(id);
    Int64RoundTrip(id);
  }

  lemma NumberHasNoCase(id: int)
    ensures forall i, c {:trigger Int64Text(id)[i], ToLower(c)} ::
      0 <= i < |Int64Text(id)| && ToLower(c) == ToLower(Int64Text(id)[i]) ==> c == Int64Text(id)[i]
  {
  }

  /** The three parts of a token, and what is behind them. */
  predicate TokenParts(guid: string, token: string, prefix: string, guid': string, number: string) {
    && token == prefix + (guid' + ([':'] + number))
    && |prefix| == 16 && StartsNoCase(prefix, "opaquelocktoken:") && |guid'| == |guid| && StartsNoCase(guid', guid)
  }

  /** A text reads as an id exactly if it is the prefix and the GUID, in any case, and a number that is that id. */
  lemma TokenExactly(guid: string, token: string, id: int)
    requires id != 0
    ensures GetLockIDFromOpaqueHeader(guid, token) == id <==>
      exists prefix, guid', number :: TokenParts(guid, token, prefix, guid', number) && Atoi64(number) == id
  {
    hide Atoi64, StartsNoCase;
    if GetLockIDFromOpaqueHeader(guid, token) == id {
      PartsOfToken(guid, token);
    }
    forall prefix, guid', number | TokenParts(guid, token, prefix, guid', number)
      ensures GetLockIDFromOpaqueHeader(guid, token) == Atoi64(number)
    {
      ReadParts(guid, token, prefix, guid', number);
    }
  }

  lemma PartsOfToken(guid: string, token: string)
    requires GetLockIDFromOpaqueHeader(guid, token) != 0
    ensures exists prefix, guid', number ::
      TokenParts(guid, token, prefix, guid', number) && Atoi64(number) == GetLockIDFromOpaqueHeader(guid, token)
  {
    hide Atoi64;
    var n, m := |TOKEN_PREFIX|, |guid|;
    var t := token[n..];
    var u := t[m..];
    assert u == [':'] + u[1..];
    assert token == token[..n] + (t[..m] + u);
    assert TokenParts(guid, token, token[..n], t[..m], u[1..]);
  }

  lemma ReadParts(guid: string, token: string, prefix: string, guid': string, number: string)
    requires TokenParts(guid, token, prefix, guid', number)
    ensures GetLockIDFromOpaqueHeader(guid, token) == Atoi64(number)
  {
    hide Atoi64, StartsNoCase;
    var u := [':'] + number;
    StartsInFront(prefix, guid' + u, TOKEN_PREFIX);
    StartsInFront(guid', u, guid);
    assert token[|TOKEN_PREFIX|..] == guid' + u && (guid' + u)[|guid|..] == u && u[1..] == number;
  }

  /** White space, a sign and digits are read as their number modulo 2^64, whatever other text follows. */
  lemma Atoi64Exactly(pad: string, sign: string, digits: string, rest: string)
    requires AllSpace(pad) && (sign == "" || sign == "-" || sign == "+")
    requires (forall i :: 0 <= i < |digits| ==> IsDigit(digits[i])) && (rest != "" ==> !IsDigit(rest[0]))
    requires digits == "" && sign == "" && rest != "" ==> !IsSpace(rest[0]) && rest[0] != '-' && rest[0] != '+'
    ensures var n := if sign == "-" then -Value(digits) else Value(digits);
      var i := Atoi64(pad + (sign + (digits + rest)));
      IsInt64(i) && (i - n) % 0x1_0000_0000_0000_0000 == 0
  {
    hide Atoi64, DigitsValue, AllSpace, WrapInt64;
    var t := digits + rest;
    assert t != "" ==> t[0] == if digits != "" then digits[0] else rest[0];
    AtoiOfSigned(pad, sign, t);
    DigitsRead(digits, rest, 0);
    ValueFrom(digits);
    WrapIsModular(Value(digits));
    WrapIsModular(-Value(digits));
  }

  lemma AtoiOfSigned(pad: string, sign: string, t: string)
    requires AllSpace(pad) && (sign == "" || sign == "-" || sign == "+")
    requires sign == "" && t != "" ==> !IsSpace(t[0]) && t[0] != '-' && t[0] != '+'
    ensures Atoi64(pad + (sign + t)) == WrapInt64(if sign == "-" then 0 - DigitsValue(t, 0) else DigitsValue(t, 0))
  {
    hide Atoi64, DigitsValue, AllSpace, WrapInt64;
    var s := sign + t;
    SkipAllSpace(pad, s);
    SkipAllSpace("", s);
    assert "" + s == s;
    AtoiSkips(pad + s, s);
    if sign == "" {
      assert s == t;
      AtoiOfDigits(t);
    } else {
      assert s[0] == sign[0] && s[1..] == t;
      AtoiAfterSign(s);
    }
  }

  lemma AtoiSkips(s: string, t: string)
    requires SkipSpace(s) == SkipSpace(t)
    ensures Atoi64(s) == Atoi64(t)
  {
    hide DigitsValue, WrapInt64;
  }

  lemma AtoiOfDigits(s: string)
    requires s != "" ==> !IsSpace(s[0]) && s[0] != '-' && s[0] != '+'
    ensures Atoi64(s) == WrapInt64(DigitsValue(s, 0))
  {
    hide DigitsValue, WrapInt64;
  }

  lemma AtoiAfterSign(s: string)
    requires s != "" && (s[0] == '-' || s[0] == '+')
    ensures Atoi64(s) == WrapInt64(if s[0] == '-' then 0 - DigitsValue(s[1..], 0) else DigitsValue(s[1..], 0))
  {
    hide DigitsValue, WrapInt64;
  }

  lemma WrapIsModular(n: int)
    ensures IsInt64(WrapInt64(n)) && (WrapInt64(n) - n) % 0x1_0000_0000_0000_0000 == 0
  {
    var m := n + 0x8000_0000_0000_0000;
    assert WrapInt64(n) - n == -(m / 0x1_0000_0000_0000_0000) * 0x1_0000_0000_0000_0000;
  }

  /** The number written with these digits. */
  function Value(digits: string): int
    requires forall i :: 0 <= i < |digits| ==> IsDigit(digits[i])
  {
    if digits == "" then 0 else 10 * Value(digits[..|digits| - 1]) + (digits[|digits| - 1] as int - '0' as int)
  }

  lemma {:induction false} DigitsRead(digits: string, rest: string, sum: nat)
    requires (forall i :: 0 <= i < |digits| ==> IsDigit(digits[i])) && (rest != "" ==> !IsDigit(rest[0]))
    ensures DigitsValue(digits + rest, sum) == DigitsValue(digits, sum)
    decreases |digits|
  {
    if digits == "" {
      assert digits + rest == rest;
    } else {
      assert (digits + rest)[1..] == digits[1..] + rest;
      DigitsRead(digits[1..], rest, 10 * sum + (digits[0] as int - '0' as int));
    }
  }

  lemma {:induction false} ValueFrom(digits: string)
    requires forall i :: 0 <= i < |digits| ==> IsDigit(digits[i])
    ensures DigitsValue(digits, 0) == Value(digits)
    decreases |digits|
  {
    if digits != "" {
      var n := |digits| - 1;
      ValueFrom(digits[..n]);
      var d := digits[n] as int - '0' as int;
      assert [Digit(d)] == [digits[n]] && digits == digits[..n] + [Digit(d)];
      DigitsValueAppend(digits[..n], d, 0);
    }
  }

  /** Two ids never print as the same token. */
  lemma TokensDiffer(guid: string, id1: int, id2: int)
    requires IsInt64(id1) && IsInt64(id2)
    requires WriteOpaqueLockToken(guid, id1, false) == WriteOpaqueLockToken(guid, id2, false)
    ensures id1 == id2
  {
    TokenRoundTrip(guid, id1, WriteOpaqueLockToken(guid, id1, false));
    TokenRoundTrip(guid, id2, WriteOpaqueLockToken(guid, id2, false));
  }

  /** A token of another server, whose GUID differs in more than case, is not taken for one of ours. */
  lemma ForeignToken(guid: string, other: string, id: int)
    requires IsGuid(guid) && IsGuid(other) && !StartsNoCase(other, guid)
    ensures GetLockIDFromOpaqueHeader(guid, WriteOpaqueLockToken(other, id, false)) == 0
  {
    hide Int64Text;
    var text := WriteOpaqueLockToken(other, id, false);
    var t := text[|TOKEN_PREFIX|..];
    StartsInFront(other, ":" + Int64Text(id), guid);
    assert t == other + (":" + Int64Text(id));
  }
}
