/** One log record as one line of JSON: `{"data":"…","chain_id":"…","hash":"…"}`, the hash
    field left out while it is not set. Strings are escaped as RFC 8259 section 7 requires, so
    a control character never appears raw inside a line. */
module LineCodec {
  import opened Wrappers
  import opened Utf8

  datatype Entry = Entry(data: Bytes, chainId: Bytes, hash: Option<Bytes>)

  const QUOTE: Byte := 0x22
  const BACKSLASH: Byte := 0x5C
  const CLOSE: Byte := 0x7D

  /** `{"data":"` */
  const DATA_KEY: Bytes := [0x7B, 0x22, 0x64, 0x61, 0x74, 0x61, 0x22, 0x3A, 0x22]
  /** `,"chain_id":"` */
  const CHAIN_KEY: Bytes := [0x2C, 0x22, 0x63, 0x68, 0x61, 0x69, 0x6E, 0x5F, 0x69, 0x64, 0x22, 0x3A, 0x22]
  /** `,"hash":"` */
  const HASH_KEY: Bytes := [0x2C, 0x22, 0x68, 0x61, 0x73, 0x68, 0x22, 0x3A, 0x22]

  // ---------------------------------------------------------------- writing

  function HexDigit(n: nat): Byte
    requires n < 16
  {
    if n < 10 then 0x30 + n else 0x61 + (n - 10)
  }

  function EscapeByte(b: Byte): Bytes {
    if b == QUOTE || b == BACKSLASH then [BACKSLASH, b]
    else if b == 0x08 then [BACKSLASH, 0x62]
    else if b == 0x09 then [BACKSLASH, 0x74]
    else if b == 0x0A then [BACKSLASH, 0x6E]
    else if b == 0x0C then [BACKSLASH, 0x66]
    else if b == 0x0D then [BACKSLASH, 0x72]
    else if b < 0x20 then [BACKSLASH, 0x75, 0x30, 0x30, HexDigit(b / 16), HexDigit(b % 16)]
    else [b]
  }

  function Escape(text: Bytes): Bytes {
    if text == [] then [] else EscapeByte(text[0]) + Escape(text[1..])
  }

  /** The text of a JSON string after its opening quote. */
  function StringBody(text: Bytes): Bytes { Escape(text) + [QUOTE] }

  function Tail(hash: Option<Bytes>): Bytes {
    match hash
    case None => [CLOSE]
    case Some(h) => HASH_KEY + (StringBody(h) + [CLOSE])
  }

  function Serialize(e: Entry): Bytes {
    DATA_KEY + (StringBody(e.data) + (CHAIN_KEY + (StringBody(e.chainId) + Tail(e.hash))))
  }

  // ---------------------------------------------------------------- reading

  function HexValue(b: Byte): Option<nat> {
    if 0x30 <= b <= 0x39 then Some(b - 0x30)
    else if 0x61 <= b <= 0x66 then Some(b - 0x61 + 10)
    else if 0x41 <= b <= 0x46 then Some(b - 0x41 + 10)
    else None
  }

  /** What is left of a text after consuming some of it, as far as its end goes. */
  predicate EndsAlike(s: Bytes, rest: Bytes) {
    |rest| < |s| && (rest != [] ==> rest[|rest| - 1] == s[|s| - 1])
  }

  /** The character named by an escape sequence, after the backslash, and what follows it. */
  function Unescape(s: Bytes): (r: Option<(Byte, Bytes)>)
    ensures r.Some? ==> EndsAlike(s, r.value.1)
  {
    if s == [] then None
    else if s[0] == QUOTE || s[0] == BACKSLASH || s[0] == 0x2F then Some((s[0], s[1..]))
    else if s[0] == 0x62 then Some((0x08, s[1..]))
    else if s[0] == 0x74 then Some((0x09, s[1..]))
    else if s[0] == 0x6E then Some((0x0A, s[1..]))
    else if s[0] == 0x66 then Some((0x0C, s[1..]))
    else if s[0] == 0x72 then Some((0x0D, s[1..]))
    else if s[0] == 0x75 && |s| >= 5 && s[1] == 0x30 && s[2] == 0x30 then
      var high, low := HexValue(s[3]), HexValue(s[4]);
      if high.None? || low.None? || high.value >= 8 then None
      else Some((high.value * 16 + low.value, s[5..]))
    else None
  }

  /** The string up to its closing quote, and what follows the quote. */
  function ParseString(s: Bytes): (r: Option<(Bytes, Bytes)>)
    ensures r.Some? ==> EndsAlike(s, r.value.1)
    decreases |s|
  {
    if s == [] then None
    else if s[0] == QUOTE then Some(([], s[1..]))
    else if s[0] == BACKSLASH then
      match Unescape(s[1..])
      case None => None
      case Some((b, rest)) => Prepend(b, ParseString(rest))
    else if s[0] < 0x20 then None
    else Prepend(s[0], ParseString(s[1..]))
  }

  function Prepend(b: Byte, r: Option<(Bytes, Bytes)>): Option<(Bytes, Bytes)> {
    if r.None? then None else Some(([b] + r.value.0, r.value.1))
  }

  function Strip(key: Bytes, s: Bytes): (r: Option<Bytes>)
    ensures r.Some? ==> s == key + r.value
  {
    if |key| <= |s| && s[..|key|] == key then Some(s[|key|..]) else None
  }

  /** A keyed string and what follows it. */
  function ParseField(key: Bytes, s: Bytes): (r: Option<(Bytes, Bytes)>)
    ensures r.Some? ==> EndsAlike(s, r.value.1)
  {
    var body := Strip(key, s);
    if body.None? then None else ParseString(body.value)
  }

  /** The optional hash field and the closing brace. */
  function ParseTail(s: Bytes): (r: Option<(Option<Bytes>, Bytes)>)
    ensures r.Some? ==> EndsAlike(s, r.value.1)
    ensures r.Some? && r.value.1 == [] ==> s[|s| - 1] == CLOSE
  {
    if s != [] && s[0] == CLOSE then Some((None, s[1..]))
    else
      match ParseField(HASH_KEY, s)
      case None => None
      case Some((h, rest)) =>
        if rest == [] || rest[0] != CLOSE then None else Some((Some(h), rest[1..]))
  }

  /** One record at the front of `s`, and what follows it. */
  function ParsePrefix(s: Bytes): (r: Option<(Entry, Bytes)>)
    ensures r.Some? ==> EndsAlike(s, r.value.1)
    ensures r.Some? && r.value.1 == [] ==> s[|s| - 1] == CLOSE
  {
    match ParseField(DATA_KEY, s)
    case None => None
    case Some((data, s1)) =>
      match ParseField(CHAIN_KEY, s1)
      case None => None
      case Some((chainId, s2)) =>
        match ParseTail(s2)
        case None => None
        case Some((hash, rest)) => Some((Entry(data, chainId, hash), rest))
  }

  /** A line parses when it is one record and nothing more. */
  function Parse(line: Bytes): (r: Option<Entry>)
    ensures r.Some? ==> line != [] && line[|line| - 1] == CLOSE
  {
    match ParsePrefix(line)
    case None => None
    case Some((e, rest)) => if rest == [] then Some(e) else None
  }

  // ---------------------------------------------------------------- round trip

  lemma UnescapeInvertsEscape(b: Byte, rest: Bytes)
    requires EscapeByte(b)[0] == BACKSLASH
    ensures Unescape((EscapeByte(b) + rest)[1..]) == Some((b, rest))
  {
    var s := (EscapeByte(b) + rest)[1..];
    if b < 0x20 && b !in {0x08, 0x09, 0x0A, 0x0C, 0x0D} {
      assert s[3] == HexDigit(b / 16) && s[4] == HexDigit(b % 16);
      assert s[5..] == rest;
    } else {
      assert s[1..] == rest;
    }
  }

  /** An escaped byte is read as that byte, and then the rest. */
  lemma EscapedByteReads(b: Byte, more: Bytes)
    ensures ParseString(EscapeByte(b) + more) == Prepend(b, ParseString(more))
  {
    var s := EscapeByte(b) + more;
    if EscapeByte(b)[0] == BACKSLASH {
      UnescapeInvertsEscape(b, more);
      hide Unescape;
    } else {
      assert s[1..] == more;
    }
  }

  lemma {:induction false} StringRoundTrip(text: Bytes, rest: Bytes)
    ensures ParseString(StringBody(text) + rest) == Some((text, rest))
    decreases |text|
  {
    hide EscapeByte;
    var s := StringBody(text) + rest;
    if text == [] {
      assert s[1..] == rest;
    } else {
      hide ParseString;
      var more := StringBody(text[1..]) + rest;
      assert s == EscapeByte(text[0]) + more;
      StringRoundTrip(text[1..], rest);
      EscapedByteReads(text[0], more);
      assert [text[0]] + text[1..] == text;
    }
  }

  lemma FieldRoundTrip(key: Bytes, text: Bytes, rest: Bytes)
    ensures ParseField(key, key + (StringBody(text) + rest)) == Some((text, rest))
  {
    var s := key + (StringBody(text) + rest);
    assert s[..|key|] == key && s[|key|..] == StringBody(text) + rest;
    StringRoundTrip(text, rest);
  }

  lemma TailRoundTrip(hash: Option<Bytes>, rest: Bytes)
    ensures ParseTail(Tail(hash) + rest) == Some((hash, rest))
  {
    match hash {
      case None =>
        assert (Tail(hash) + rest)[1..] == rest;
      case Some(h) =>
        assert Tail(hash) + rest == HASH_KEY + (StringBody(h) + ([CLOSE] + rest));
        FieldRoundTrip(HASH_KEY, h, [CLOSE] + rest);
        assert ([CLOSE] + rest)[1..] == rest;
    }
  }

  /** A written record reads back, whatever follows it. */
  lemma RecordRoundTrip(e: Entry, rest: Bytes)
    ensures ParsePrefix(Serialize(e) + rest) == Some((e, rest))
  {
    hide StringBody, Tail, ParseField, ParseTail;
    var t3 := Tail(e.hash) + rest;
    var t2 := CHAIN_KEY + (StringBody(e.chainId) + t3);
    assert Serialize(e) + rest == DATA_KEY + (StringBody(e.data) + t2);
    FieldRoundTrip(DATA_KEY, e.data, t2);
    FieldRoundTrip(CHAIN_KEY, e.chainId, t3);
    TailRoundTrip(e.hash, rest);
  }

  lemma ParseInvertsSerialize(e: Entry)
    ensures Parse(Serialize(e)) == Some(e)
  {
    RecordRoundTrip(e, []);
    assert Serialize(e) + [] == Serialize(e);
  }

  /** The line of a record with `a"`, a newline and a bell in its data:
      `{"data":"a\"\n\u0007","chain_id":"c","hash":"h"}`. */
  lemma LineInFull()
    ensures Serialize(Entry([0x61, 0x22, 0x0A, 0x07], [0x63], Some([0x68])))
         == [0x7B, 0x22, 0x64, 0x61, 0x74, 0x61, 0x22, 0x3A, 0x22,
             0x61, 0x5C, 0x22, 0x5C, 0x6E, 0x5C, 0x75, 0x30, 0x30, 0x30, 0x37, 0x22]
            + [0x2C, 0x22, 0x63, 0x68, 0x61, 0x69, 0x6E, 0x5F, 0x69, 0x64, 0x22, 0x3A, 0x22, 0x63, 0x22]
            + [0x2C, 0x22, 0x68, 0x61, 0x73, 0x68, 0x22, 0x3A, 0x22, 0x68, 0x22, 0x7D]
  {
    hide *;
    var data, tail := [0x61, 0x22, 0x0A, 0x07], Tail(Some([0x68]));
    TextInFull();
    TailInFull();
    FieldInFull();
    SerializeUnfolds(Entry(data, [0x63], Some([0x68])));
    Regroup(DATA_KEY, StringBody(data), CHAIN_KEY, StringBody([0x63]), tail);
  }

  lemma Regroup(a: Bytes, b: Bytes, c: Bytes, d: Bytes, e: Bytes)
    ensures a + (b + (c + (d + e))) == (a + b) + (c + d) + e
  {
  }

  lemma SerializeUnfolds(e: Entry)
    ensures Serialize(e) == DATA_KEY + (StringBody(e.data) + (CHAIN_KEY + (StringBody(e.chainId) + Tail(e.hash))))
  {
  }

  lemma TailInFull()
    ensures Tail(Some([0x68])) == [0x2C, 0x22, 0x68, 0x61, 0x73, 0x68, 0x22, 0x3A, 0x22, 0x68, 0x22, 0x7D]
  {
    TextInFull();
    hide Escape;
  }

  lemma FieldInFull()
    ensures DATA_KEY + StringBody([0x61, 0x22, 0x0A, 0x07])
         == [0x7B, 0x22, 0x64, 0x61, 0x74, 0x61, 0x22, 0x3A, 0x22,
             0x61, 0x5C, 0x22, 0x5C, 0x6E, 0x5C, 0x75, 0x30, 0x30, 0x30, 0x37, 0x22]
    ensures CHAIN_KEY + StringBody([0x63])
         == [0x2C, 0x22, 0x63, 0x68, 0x61, 0x69, 0x6E, 0x5F, 0x69, 0x64, 0x22, 0x3A, 0x22, 0x63, 0x22]
  {
    TextInFull();
    hide Escape;
  }

  lemma TextInFull()
    ensures Escape([0x61, 0x22, 0x0A, 0x07])
         == [0x61, 0x5C, 0x22, 0x5C, 0x6E, 0x5C, 0x75, 0x30, 0x30, 0x30, 0x37]
    ensures Escape([0x63]) == [0x63] && Escape([0x68]) == [0x68]
  {
    EscapeNothing();
    BytesInFull();
    hide *;
    EscapeInFull(0x63, []);
    EscapeInFull(0x68, []);
    EscapeInFull(0x07, []);
    EscapeInFull(0x0A, [0x07]);
    EscapeInFull(0x22, [0x0A, 0x07]);
    EscapeInFull(0x61, [0x22, 0x0A, 0x07]);
    assert [0x63] + [] == [0x63] && [0x68] + [] == [0x68] && [0x07] + [] == [0x07];
    assert [0x0A] + [0x07] == [0x0A, 0x07] && [0x22] + [0x0A, 0x07] == [0x22, 0x0A, 0x07];
    assert [0x61] + [0x22, 0x0A, 0x07] == [0x61, 0x22, 0x0A, 0x07];
  }

  lemma EscapeNothing()
    ensures Escape([]) == []
  {
  }

  lemma BytesInFull()
    ensures EscapeByte(0x61) == [0x61] && EscapeByte(0x63) == [0x63] && EscapeByte(0x68) == [0x68]
    ensures EscapeByte(0x22) == [0x5C, 0x22] && EscapeByte(0x0A) == [0x5C, 0x6E]
    ensures EscapeByte(0x07) == [0x5C, 0x75, 0x30, 0x30, 0x30, 0x37]
  {
  }

  lemma EscapeInFull(b: Byte, rest: Bytes)
    ensures Escape([b] + rest) == EscapeByte(b) + Escape(rest)
  {
    hide EscapeByte;
    assert ([b] + rest)[1..] == rest;
  }

  // ---------------------------------------------------------------- torn lines

  lemma UnescapeExtends(s: Bytes, more: Bytes)
    requires Unescape(s).Some?
    ensures Unescape(s + more) == Some((Unescape(s).value.0, Unescape(s).value.1 + more))
  {
    assert (s + more)[1..] == s[1..] + more;
    if |s| >= 5 {
      assert (s + more)[5..] == s[5..] + more;
    }
  }

  lemma {:induction false} StringExtends(s: Bytes, more: Bytes)
    requires ParseString(s).Some?
    ensures ParseString(s + more) == Some((ParseString(s).value.0, ParseString(s).value.1 + more))
    decreases |s|
  {
    if s[0] == QUOTE {
      assert (s + more)[1..] == s[1..] + more;
    } else if s[0] == BACKSLASH {
      var rest := Unescape(s[1..]).value.1;
      assert (s + more)[1..] == s[1..] + more;
      UnescapeExtends(s[1..], more);
      StringExtends(rest, more);
    } else {
      assert (s + more)[1..] == s[1..] + more;
      StringExtends(s[1..], more);
    }
  }

  lemma FieldExtends(key: Bytes, s: Bytes, more: Bytes)
    requires ParseField(key, s).Some?
    ensures ParseField(key, s + more)
         == Some((ParseField(key, s).value.0, ParseField(key, s).value.1 + more))
  {
    assert (s + more)[..|key|] == key;
    assert (s + more)[|key|..] == s[|key|..] + more;
    StringExtends(s[|key|..], more);
  }

  lemma TailExtends(s: Bytes, more: Bytes)
    requires ParseTail(s).Some?
    ensures ParseTail(s + more) == Some((ParseTail(s).value.0, ParseTail(s).value.1 + more))
  {
    if s[0] == CLOSE {
      assert (s + more)[1..] == s[1..] + more;
    } else {
      FieldExtends(HASH_KEY, s, more);
      var rest := ParseField(HASH_KEY, s).value.1;
      assert (rest + more)[1..] == rest[1..] + more;
    }
  }

  lemma RecordExtends(s: Bytes, more: Bytes)
    requires ParsePrefix(s).Some?
    ensures ParsePrefix(s + more) == Some((ParsePrefix(s).value.0, ParsePrefix(s).value.1 + more))
  {
    var (data, s1) := ParseField(DATA_KEY, s).value;
    var (chainId, s2) := ParseField(CHAIN_KEY, s1).value;
    assert ParseField(DATA_KEY, s + more) == Some((data, s1 + more)) by {
      FieldExtends(DATA_KEY, s, more);
    }
    assert ParseField(CHAIN_KEY, s1 + more) == Some((chainId, s2 + more)) by {
      FieldExtends(CHAIN_KEY, s1, more);
    }
    TailExtends(s2, more);
  }

  /** No proper prefix of a record parses, so a torn line is never mistaken for a record. */
  lemma TornLineDoesNotParse(e: Entry, n: nat)
    requires n < |Serialize(e)|
    ensures Parse(Serialize(e)[..n]).None?
  {
    var line := Serialize(e);
    var cut, lost := line[..n], line[n..];
    assert cut + lost == line;
    assert [] + lost == lost;
    ParseInvertsSerialize(e);
    if Parse(cut).Some? {
      RecordExtends(cut, lost);
    }
  }

  // ---------------------------------------------------------------- shape of a line

  lemma {:induction false} EscapeIsPrintable(text: Bytes)
    ensures forall b :: b in Escape(text) ==> b >= 0x20
  {
    if text != [] {
      EscapeIsPrintable(text[1..]);
    }
  }

  /** No raw control character, newline included, inside a line. */
  lemma SerializeIsPrintable(e: Entry)
    ensures forall b :: b in Serialize(e) ==> b >= 0x20
  {
    hide Escape;
    EscapeIsPrintable(e.data);
    EscapeIsPrintable(e.chainId);
    if e.hash.Some? {
      EscapeIsPrintable(e.hash.value);
    }
  }

  ghost predicate WellFormed(e: Entry) {
    Valid(e.data) && Valid(e.chainId) && (e.hash.Some? ==> Valid(e.hash.value))
  }

  lemma EscapeHead(text: Bytes)
    requires text != [] && text[0] >= 0x80
    ensures Escape(text) == [text[0]] + Escape(text[1..])
  {
  }

  lemma {:induction false} EscapeHigh(text: Bytes, n: nat)
    requires n <= |text| && forall i :: 0 <= i < n ==> text[i] >= 0x80
    ensures Escape(text) == text[..n] + Escape(text[n..])
    decreases n
  {
    if n == 0 {
      assert text[n..] == text;
    } else {
      EscapeHead(text);
      hide *;
      EscapeHigh(text[1..], n - 1);
      assert text[1..][n - 1..] == text[n..];
      Associative([text[0]], text[1..][..n - 1], Escape(text[n..]));
      assert [text[0]] + text[1..][..n - 1] == text[..n];
    }
  }

  lemma WholeCharacterIsValid(text: Bytes)
    requires text != [] && StepIsWhole(text)
    ensures Valid(text[..StepLength(text)])
  {
    var n := StepLength(text);
    var c := text[..n];
    assert forall i :: 0 <= i < n ==> c[i] == text[i];
    assert StepLength(c) == n;
    assert c[n..] == [];
  }

  lemma {:induction false} EscapeKeepsValid(text: Bytes)
    requires Valid(text)
    ensures Valid(Escape(text))
    decreases |text|
  {
    if text != [] {
      var n := StepLength(text);
      EscapeKeepsValid(text[n..]);
      if n == 1 {
        AsciiIsValid(EscapeByte(text[0]));
        ValidAppend(EscapeByte(text[0]), Escape(text[1..]));
      } else {
        EscapeHigh(text, n);
        WholeCharacterIsValid(text);
        ValidAppend(text[..n], Escape(text[n..]));
      }
    }
  }

  lemma StringBodyValid(text: Bytes, rest: Bytes)
    requires Valid(text) && Valid(rest)
    ensures Valid(StringBody(text) + rest)
  {
    hide Escape, Valid;
    EscapeKeepsValid(text);
    AsciiIsValid([QUOTE]);
    ValidAppend([QUOTE], rest);
    ValidAppend(Escape(text), [QUOTE] + rest);
    assert StringBody(text) + rest == Escape(text) + ([QUOTE] + rest);
  }

  lemma KeyedValid(key: Bytes, text: Bytes, rest: Bytes)
    requires IsAscii(key) && Valid(text) && Valid(rest)
    ensures Valid(key + (StringBody(text) + rest))
  {
    StringBodyValid(text, rest);
    AsciiIsValid(key);
    ValidAppend(key, StringBody(text) + rest);
  }

  lemma SerializeIsValid(e: Entry)
    requires WellFormed(e)
    ensures Valid(Serialize(e))
  {
    hide Escape, Valid, StringBody;
    AsciiIsValid([CLOSE]);
    if e.hash.Some? {
      KeyedValid(HASH_KEY, e.hash.value, [CLOSE]);
    }
    KeyedValid(CHAIN_KEY, e.chainId, Tail(e.hash));
    KeyedValid(DATA_KEY, e.data, CHAIN_KEY + (StringBody(e.chainId) + Tail(e.hash)));
  }

  lemma {:induction false} EscapeAscii(text: Bytes)
    ensures IsAscii(Escape(text)) <==> IsAscii(text)
  {
    if text != [] {
      EscapeAscii(text[1..]);
      var head, tail := EscapeByte(text[0]), Escape(text[1..]);
      assert IsAscii(head) <==> text[0] < 0x80 by {
        if text[0] >= 0x80 { assert head[0] >= 0x80; }
      }
      AsciiConcat(head, tail);
      AsciiConcat([text[0]], text[1..]);
      assert text == [text[0]] + text[1..];
    }
  }

  lemma AsciiConcat(a: Bytes, b: Bytes)
    ensures IsAscii(a + b) <==> IsAscii(a) && IsAscii(b)
  {
    if IsAscii(a + b) {
      assert forall i :: 0 <= i < |a| ==> a[i] == (a + b)[i];
      assert forall i :: 0 <= i < |b| ==> b[i] == (a + b)[|a| + i];
    }
  }

  lemma KeyedAscii(key: Bytes, text: Bytes, rest: Bytes)
    requires IsAscii(key)
    ensures IsAscii(key + (StringBody(text) + rest)) <==> IsAscii(text) && IsAscii(rest)
  {
    EscapeAscii(text);
    AsciiConcat(Escape(text), [QUOTE]);
    AsciiConcat(StringBody(text), rest);
    AsciiConcat(key, StringBody(text) + rest);
  }

  ghost predicate AsciiEntry(e: Entry) {
    IsAscii(e.data) && IsAscii(e.chainId) && (e.hash.Some? ==> IsAscii(e.hash.value))
  }

  lemma SerializeAscii(e: Entry)
    ensures IsAscii(Serialize(e)) <==> AsciiEntry(e)
  {
    hide StringBody;
    if e.hash.Some? {
      KeyedAscii(HASH_KEY, e.hash.value, [CLOSE]);
    }
    KeyedAscii(CHAIN_KEY, e.chainId, Tail(e.hash));
    KeyedAscii(DATA_KEY, e.data, CHAIN_KEY + (StringBody(e.chainId) + Tail(e.hash)));
  }

  // ---------------------------------------------------------------- text in front of a record

  /** How a string was read that no field of a record follows. */
  predicate LeadsNowhere(r: Option<(Bytes, Bytes)>) {
    r.None? || r.value.1 == [] || r.value.1[0] !in {CHAIN_KEY[0], CLOSE}
  }

  /** A text that ends any record it is put behind: it cannot continue a key, an escape or a whole
      record, and a string it continues is never followed by a field. */
  predicate Foreign(x: Bytes) {
    x != [] && x[0] in {DATA_KEY[0], REPLACEMENT[0]} && LeadsNowhere(ParseString(x))
  }

  /** A byte that stands for itself in a string. */
  predicate IsPlain(b: Byte) { b >= 0x20 && b != QUOTE && b != BACKSLASH }

  lemma PlainByte(b: Byte, x: Bytes)
    requires IsPlain(b)
    ensures LeadsNowhere(ParseString([b] + x)) <==> LeadsNowhere(ParseString(x))
  {
    assert ([b] + x)[1..] == x;
  }

  lemma ForeignAfterPlain(b: Byte, x: Bytes)
    requires b in {DATA_KEY[0], REPLACEMENT[0]} && Foreign(x)
    ensures Foreign([b] + x)
  {
    PlainByte(b, x);
  }

  lemma ForeignAfterReplacement(x: Bytes)
    requires Foreign(x)
    ensures Foreign(REPLACEMENT + x)
  {
    PlainByte(0xBD, x);
    PlainByte(0xBF, [0xBD] + x);
    PlainByte(0xEF, [0xBF] + ([0xBD] + x));
    assert REPLACEMENT + x == [0xEF] + ([0xBF] + ([0xBD] + x));
  }

  lemma ForeignStart(z: Bytes)
    requires z == [] || z[0] !in {CHAIN_KEY[0], CLOSE}
    ensures Foreign([DATA_KEY[0], QUOTE] + z) && Foreign([DATA_KEY[0]])
  {
    var s := [QUOTE] + z;
    assert s[1..] == z;
    PlainByte(DATA_KEY[0], s);
    PlainByte(DATA_KEY[0], []);
    assert [DATA_KEY[0]] + s == [DATA_KEY[0], QUOTE] + z && [DATA_KEY[0]] + [] == [DATA_KEY[0]];
  }

  lemma CutEscape(b: Byte, n: nat, x: Bytes)
    requires 0 < n < |EscapeByte(b)| && Foreign(x)
    ensures LeadsNowhere(ParseString(EscapeByte(b)[..n] + x))
  {
    ForeignIsText(x);
    CutEscapeIsNone(b, n, x);
    hide LeadsNowhere, Unescape, Foreign;
    NoneLeadsNowhere();
  }

  lemma CutEscapeIsNone(b: Byte, n: nat, x: Bytes)
    requires 0 < n < |EscapeByte(b)| && x != [] && x[0] in {DATA_KEY[0], REPLACEMENT[0]}
    ensures (EscapeByte(b)[..n] + x)[0] == BACKSLASH
    ensures Unescape((EscapeByte(b)[..n] + x)[1..]).None?
  {
    var s := EscapeByte(b)[..n] + x;
    assert s[n] == x[0];
    assert forall i :: 0 <= i < n ==> s[i] == EscapeByte(b)[i];
  }

  lemma NoneLeadsNowhere()
    ensures LeadsNowhere(None)
  {
  }

  lemma {:induction false} CutString(text: Bytes, n: nat, x: Bytes)
    requires n <= |Escape(text)| && Foreign(x)
    ensures LeadsNowhere(ParseString(Escape(text)[..n] + x))
    decreases |text|
  {
    hide *;
    if n == 0 {
      ForeignAlone(x);
      assert Escape(text)[..0] + x == x;
    } else {
      EscapeUnfolds(text);
      var first, rest := EscapeByte(text[0]), Escape(text[1..]);
      if n < |first| {
        CutEscape(text[0], n, x);
        assert (first + rest)[..n] == first[..n];
      } else {
        CutString(text[1..], n - |first|, x);
        EscapeThen(text[0], rest[..n - |first|] + x);
        assert Escape(text)[..n] + x == first + (rest[..n - |first|] + x);
      }
    }
  }

  lemma ForeignAlone(x: Bytes)
    requires Foreign(x)
    ensures LeadsNowhere(ParseString(x))
  {
  }

  lemma EscapeUnfolds(text: Bytes)
    requires Escape(text) != []
    ensures text != [] && Escape(text) == EscapeByte(text[0]) + Escape(text[1..])
  {
  }

  lemma EscapeThen(b: Byte, more: Bytes)
    ensures LeadsNowhere(ParseString(EscapeByte(b) + more)) <==> LeadsNowhere(ParseString(more))
  {
    hide ParseString, EscapeByte;
    EscapedByteReads(b, more);
  }

  lemma CutKey(key: Bytes, n: nat, x: Bytes)
    requires n < |key| && x != [] && x[0] != key[n]
    ensures LeadsNowhere(ParseField(key, key[..n] + x))
  {
    var s := key[..n] + x;
    assert s[n] == x[0];
    assert |s| >= |key| ==> s[..|key|][n] == s[n];
  }

  lemma ReadKey(key: Bytes, s: Bytes)
    ensures ParseField(key, key + s) == ParseString(s)
  {
    assert (key + s)[..|key|] == key && (key + s)[|key|..] == s;
  }

  /** A key whose bytes from `n` on are none a foreign text starts with. */
  predicate NotForeign(key: Bytes, n: nat) {
    n < |key| ==> key[n] !in {DATA_KEY[0], REPLACEMENT[0]}
  }

  /** A keyed string cut off, with a foreign text in its place: the field is read whole when the cut
      was behind it, and otherwise leads nowhere. */
  lemma CutField(key: Bytes, text: Bytes, more: Bytes, n: nat, x: Bytes)
    requires Foreign(x) && n <= |key + (StringBody(text) + more)| && NotForeign(key, n)
    ensures var r, k := ParseField(key, (key + (StringBody(text) + more))[..n] + x), |key| + |StringBody(text)|;
            if n < k then LeadsNowhere(r) else r == Some((text, more[..n - k] + x))
  {
    hide ParseString, ParseField, Escape, LeadsNowhere;
    var k, s := |key| + |StringBody(text)|, (key + (StringBody(text) + more))[..n] + x;
    if n < |key| {
      CutKey(key, n, x);
      assert s == key[..n] + x;
    } else if n < k {
      CutString(text, n - |key|, x);
      assert s == key + (Escape(text)[..n - |key|] + x);
      ReadKey(key, Escape(text)[..n - |key|] + x);
    } else {
      assert s == key + (StringBody(text) + (more[..n - k] + x));
      FieldRoundTrip(key, text, more[..n - k] + x);
    }
  }

  lemma NoField(s: Bytes)
    requires s == [] || s[0] != CHAIN_KEY[0]
    ensures ParseField(CHAIN_KEY, s).None? && ParseField(HASH_KEY, s).None?
  {
    assert CHAIN_KEY[0] == HASH_KEY[0];
    if |s| >= |HASH_KEY| { assert s[..|HASH_KEY|][0] == s[0]; }
    if |s| >= |CHAIN_KEY| { assert s[..|CHAIN_KEY|][0] == s[0]; }
  }

  lemma KeysAreNotForeign(n: nat)
    ensures NotForeign(CHAIN_KEY, n) && NotForeign(HASH_KEY, n) && (n > 0 ==> NotForeign(DATA_KEY, n))
  {
  }

  lemma CutTail(hash: Option<Bytes>, n: nat, x: Bytes)
    requires n <= |Tail(hash)| && Foreign(x)
    ensures var r := ParseTail(Tail(hash)[..n] + x); r.Some? ==> r.value.1 != []
  {
    hide ParseString, ParseField, StringBody, Foreign;
    var s := Tail(hash)[..n] + x;
    ForeignIsText(x);
    match hash {
      case None =>
        assert s == if n == 0 then x else [CLOSE] + x;
        NoField(x);
        assert n == 1 ==> s[1..] == x;
      case Some(h) =>
        KeysAreNotForeign(n);
        CutField(HASH_KEY, h, [CLOSE], n, x);
        var k := |HASH_KEY| + |StringBody(h)|;
        assert n > 0 ==> s[0] == HASH_KEY[0];
        assert n == k ==> [CLOSE][..0] + x == x;
        assert n == k + 1 ==> ([CLOSE][..1] + x)[1..] == x;
    }
  }

  lemma ForeignIsText(x: Bytes)
    requires Foreign(x)
    ensures x != [] && x[0] in {DATA_KEY[0], REPLACEMENT[0]} && x[0] !in {CHAIN_KEY[0], CLOSE}
  {
  }

  /** Put behind any part of a record, or a whole one, a foreign text is no record. */
  lemma ForeignTextIsNoRecord(e: Entry, n: nat, x: Bytes)
    requires 0 < n <= |Serialize(e)| && Foreign(x)
    ensures Parse(Serialize(e)[..n] + x).None?
  {
    hide ParseString, ParseField, ParseTail, StringBody, Tail, Foreign, NotForeign;
    var t3 := Tail(e.hash);
    var t2 := CHAIN_KEY + (StringBody(e.chainId) + t3);
    var k1, k2 := |DATA_KEY| + |StringBody(e.data)|, |CHAIN_KEY| + |StringBody(e.chainId)|;
    var s := Serialize(e)[..n] + x;
    KeysAreNotForeign(n);
    CutField(DATA_KEY, e.data, t2, n, x);
    if n < k1 {
      if ParseField(DATA_KEY, s).Some? {
        NoField(ParseField(DATA_KEY, s).value.1);
      }
    } else {
      KeysAreNotForeign(n - k1);
      CutField(CHAIN_KEY, e.chainId, t3, n - k1, x);
      var s1 := t2[..n - k1] + x;
      if n - k1 < k2 {
        if ParseField(CHAIN_KEY, s1).Some? {
          NoTail(ParseField(CHAIN_KEY, s1).value.1);
        }
      } else {
        CutTail(e.hash, n - k1 - k2, x);
      }
    }
  }

  lemma NoTail(s: Bytes)
    requires s == [] || s[0] !in {CHAIN_KEY[0], CLOSE}
    ensures ParseTail(s).None?
  {
    hide ParseField;
    NoField(s);
  }
}
