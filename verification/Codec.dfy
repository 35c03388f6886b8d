/** Record decoding and its inverse (internal/scan/decode.go, internal/scan/encode.go).
    Go strings are byte strings, so decoded text is a sequence of bytes too.
    JSON and UTF-8 validity are arbitrary predicates on bytes. */
module Codec {
  import opened Kafka

  const JSON := "json"
  const STRING := "string"
  const BASE64 := "base64"

  datatype Validity = Validity(json: Bytes -> bool, utf8: Bytes -> bool)

  datatype ItemHeader = ItemHeader(key: string, value: Bytes, encoding: string)

  /** scan.Record: one decoded, wire-ready message. */
  datatype Item = Item(
    topic: string, partition: int, offset: int, timestamp: int,
    key: Bytes, keyEncoding: string, value: Bytes, valueEncoding: string,
    headers: seq<ItemHeader>, sizeBytes: nat)

  // ---- Base64, section 4 of RFC 4648, as Go's StdEncoding reads and writes it ----

  const PAD: Byte := 61

  function Symbol(v: int): (c: Byte)
    requires 0 <= v < 64
  {
    if v < 26 then (65 + v) as Byte
    else if v < 52 then (71 + v) as Byte
    else if v < 62 then (v - 4) as Byte
    else if v == 62 then 43
    else 47
  }

  function SymbolValue(c: Byte): (v: Option<int>)
    ensures v.Some? ==> 0 <= v.value < 64
  {
    var c := c as int;
    if 65 <= c <= 90 then Some(c - 65)
    else if 97 <= c <= 122 then Some(c - 71)
    else if 48 <= c <= 57 then Some(c + 4)
    else if c == 43 then Some(62)
    else if c == 47 then Some(63)
    else None
  }

  lemma SymbolRoundTrip(v: int)
    requires 0 <= v < 64
    ensures SymbolValue(Symbol(v)) == Some(v)
    ensures Symbol(v) != PAD && !IsNewline(Symbol(v))
  {
  }

  function EncodeBase64(b: Bytes): Bytes {
    if |b| == 0 then []
    else
      var b0 := b[0] as int;
      if |b| == 1 then [Symbol(b0 / 4), Symbol(b0 % 4 * 16), PAD, PAD]
      else
        var b1 := b[1] as int;
        if |b| == 2 then [Symbol(b0 / 4), Symbol(b0 % 4 * 16 + b1 / 16), Symbol(b1 % 16 * 4), PAD]
        else
          var b2 := b[2] as int;
          [Symbol(b0 / 4), Symbol(b0 % 4 * 16 + b1 / 16), Symbol(b1 % 16 * 4 + b2 / 64), Symbol(b2 % 64)]
          + EncodeBase64(b[3..])
  }

  predicate IsNewline(c: Byte) { c == 10 || c == 13 }

  // Go's decoder skips carriage returns and newlines anywhere in its input.
  function WithoutNewlines(s: Bytes): Bytes {
    if s == [] then []
    else (if IsNewline(s[0]) then [] else [s[0]]) + WithoutNewlines(s[1..])
  }

  // Left-over bits before padding are dropped unchecked: StdEncoding is not strict.
  function DecodeQuads(s: Bytes): Result<Bytes> {
    if s == [] then Ok([])
    else if |s| < 4 then Err(Validation)
    else
      match (SymbolValue(s[0]), SymbolValue(s[1]), SymbolValue(s[2]), SymbolValue(s[3]))
      case (Some(v0), Some(v1), Some(v2), Some(v3)) =>
        (match DecodeQuads(s[4..])
         case Ok(rest) =>
           Ok([(v0 * 4 + v1 / 16) as Byte, (v1 % 16 * 16 + v2 / 4) as Byte, (v2 % 4 * 64 + v3) as Byte] + rest)
         case Err(e) => Err(e))
      case (Some(v0), Some(v1), Some(v2), None) =>
        if s[3] == PAD && |s| == 4
        then Ok([(v0 * 4 + v1 / 16) as Byte, (v1 % 16 * 16 + v2 / 4) as Byte])
        else Err(Validation)
      case (Some(v0), Some(v1), None, None) =>
        if s[2] == PAD && s[3] == PAD && |s| == 4
        then Ok([(v0 * 4 + v1 / 16) as Byte])
        else Err(Validation)
      case _ => Err(Validation)
  }

  function DecodeBase64(s: Bytes): Result<Bytes> {
    DecodeQuads(WithoutNewlines(s))
  }

  lemma {:induction false} EncodedHasNoNewlines(b: Bytes)
    ensures forall c :: c in EncodeBase64(b) ==> !IsNewline(c)
  {
    if |b| >= 3 {
      EncodedHasNoNewlines(b[3..]);
    }
  }

  lemma {:induction false} NothingToStrip(s: Bytes)
    requires forall c :: c in s ==> !IsNewline(c)
    ensures WithoutNewlines(s) == s
  {
    if s != [] {
      NothingToStrip(s[1..]);
    }
  }

  // Splitting three bytes into sextets loses nothing.
  lemma Sextets(b0: int, b1: int, b2: int) returns (v0: int, v1: int, v2: int, v3: int)
    requires 0 <= b0 < 256 && 0 <= b1 < 256 && 0 <= b2 < 256
    ensures v0 == b0 / 4 && v1 == b0 % 4 * 16 + b1 / 16 && v2 == b1 % 16 * 4 + b2 / 64 && v3 == b2 % 64
    ensures 0 <= v0 < 64 && 0 <= v1 < 64 && 0 <= v2 < 64 && 0 <= v3 < 64
    ensures v0 * 4 + v1 / 16 == b0 && v1 % 16 * 16 + v2 / 4 == b1 && v2 % 4 * 64 + v3 == b2
  {
    v0, v1, v2, v3 := b0 / 4, b0 % 4 * 16 + b1 / 16, b1 % 16 * 4 + b2 / 64, b2 % 64;
    assert v1 / 16 == b0 % 4;
    assert v2 / 4 == b1 % 16;
  }

  // One full quad in front of any text, read as the three bytes it stands for.
  lemma FullQuad(v0: int, v1: int, v2: int, v3: int, b: Byte, c: Byte, d: Byte, text: Bytes, rest: Bytes)
    requires 0 <= v0 < 64 && 0 <= v1 < 64 && 0 <= v2 < 64 && 0 <= v3 < 64
    requires v0 * 4 + v1 / 16 == b as int && v1 % 16 * 16 + v2 / 4 == c as int && v2 % 4 * 64 + v3 == d as int
    requires DecodeQuads(text) == Ok(rest)
    ensures DecodeQuads([Symbol(v0), Symbol(v1), Symbol(v2), Symbol(v3)] + text) == Ok([b, c, d] + rest)
  {
    SymbolRoundTrip(v0);
    SymbolRoundTrip(v1);
    SymbolRoundTrip(v2);
    SymbolRoundTrip(v3);
    assert ([Symbol(v0), Symbol(v1), Symbol(v2), Symbol(v3)] + text)[4..] == text;
  }

  // The padded quads, for one and two left-over bytes.
  lemma PaddedQuads(v0: int, v1: int, v2: int)
    requires 0 <= v0 < 64 && 0 <= v1 < 64 && 0 <= v2 < 64
    ensures DecodeQuads([Symbol(v0), Symbol(v1), PAD, PAD]) == Ok([(v0 * 4 + v1 / 16) as Byte])
    ensures DecodeQuads([Symbol(v0), Symbol(v1), Symbol(v2), PAD]) ==
            Ok([(v0 * 4 + v1 / 16) as Byte, (v1 % 16 * 16 + v2 / 4) as Byte])
  {
    SymbolRoundTrip(v0);
    SymbolRoundTrip(v1);
    SymbolRoundTrip(v2);
  }

  lemma OneByte(b: Byte)
    ensures DecodeQuads(EncodeBase64([b])) == Ok([b])
  {
    var v0, v1, v2, _ := Sextets(b as int, 0, 0);
    PaddedQuads(v0, v1, v2);
  }

  lemma TwoBytes(b: Byte, c: Byte)
    ensures DecodeQuads(EncodeBase64([b, c])) == Ok([b, c])
  {
    var v0, v1, v2, _ := Sextets(b as int, c as int, 0);
    PaddedQuads(v0, v1, v2);
    EncodesTwo(b, c, v0, v1, v2);
  }

  lemma EncodesTwo(b: Byte, c: Byte, v0: int, v1: int, v2: int)
    requires v0 == b as int / 4 && v1 == b as int % 4 * 16 + c as int / 16 && v2 == c as int % 16 * 4
    requires 0 <= v0 < 64 && 0 <= v1 < 64 && 0 <= v2 < 64
    ensures EncodeBase64([b, c]) == [Symbol(v0), Symbol(v1), Symbol(v2), PAD]
  {
  }

  lemma ThreeBytes(b: Byte, c: Byte, d: Byte, rest: Bytes)
    requires DecodeQuads(EncodeBase64(rest)) == Ok(rest)
    ensures DecodeQuads(EncodeBase64([b, c, d] + rest)) == Ok([b, c, d] + rest)
  {
    var v0, v1, v2, v3 := Sextets(b as int, c as int, d as int);
    EncodesThree(b, c, d, rest, v0, v1, v2, v3);
    FullQuad(v0, v1, v2, v3, b, c, d, EncodeBase64(rest), rest);
  }

  lemma EncodesThree(b: Byte, c: Byte, d: Byte, rest: Bytes, v0: int, v1: int, v2: int, v3: int)
    requires v0 == b as int / 4 && v1 == b as int % 4 * 16 + c as int / 16
    requires v2 == c as int % 16 * 4 + d as int / 64 && v3 == d as int % 64
    requires 0 <= v0 < 64 && 0 <= v1 < 64 && 0 <= v2 < 64 && 0 <= v3 < 64
    ensures EncodeBase64([b, c, d] + rest) == [Symbol(v0), Symbol(v1), Symbol(v2), Symbol(v3)] + EncodeBase64(rest)
  {
    assert ([b, c, d] + rest)[3..] == rest;
  }

  lemma {:induction false} QuadsRoundTrip(b: Bytes)
    ensures DecodeQuads(EncodeBase64(b)) == Ok(b)
  {
    if |b| == 1 {
      OneByte(b[0]);
      assert b == [b[0]];
    } else if |b| == 2 {
      TwoBytes(b[0], b[1]);
      assert b == [b[0], b[1]];
    } else if |b| >= 3 {
      QuadsRoundTrip(b[3..]);
      ThreeBytes(b[0], b[1], b[2], b[3..]);
      assert b == [b[0], b[1], b[2]] + b[3..];
    }
  }

  /** Base64 text decodes to the bytes it was written from. */
  lemma Base64RoundTrip(b: Bytes)
    ensures DecodeBase64(EncodeBase64(b)) == Ok(b)
  {
    EncodedHasNoNewlines(b);
    NothingToStrip(EncodeBase64(b));
    QuadsRoundTrip(b);
  }

  // ---- Decode ----

  function AutoDecode(v: Validity, b: Bytes): (Bytes, string) {
    if v.json(b) then (b, JSON)
    else if v.utf8(b) then (b, STRING)
    else (EncodeBase64(b), BASE64)
  }

  function DecodeBytes(v: Validity, b: Bytes, format: string): (Bytes, string) {
    if format == BASE64 then (EncodeBase64(b), BASE64)
    else if format == JSON && v.json(b) then (b, JSON)
    else if format == STRING && v.utf8(b) then (b, STRING)
    else AutoDecode(v, b)
  }

  function DecodeHeaderValue(v: Validity, b: Bytes): (Bytes, string) {
    if v.utf8(b) then (b, STRING) else (EncodeBase64(b), BASE64)
  }

  function DecodeHeader(v: Validity, h: Header): ItemHeader {
    var (text, encoding) := DecodeHeaderValue(v, h.value);
    ItemHeader(h.key, text, encoding)
  }

  function DecodeHeaders(v: Validity, hs: seq<Header>): (items: seq<ItemHeader>)
    ensures |items| == |hs|
    ensures forall i :: 0 <= i < |hs| ==> items[i] == DecodeHeader(v, hs[i])
  {
    if hs == [] then [] else DecodeHeaders(v, hs[..|hs| - 1]) + [DecodeHeader(v, hs[|hs| - 1])]
  }

  function Decode(v: Validity, r: Record, format: string): Item {
    var (key, keyEncoding) := DecodeBytes(v, r.key, format);
    var (value, valueEncoding) := DecodeBytes(v, r.value, format);
    Item(r.topic, r.partition, r.offset, r.timestamp, key, keyEncoding, value, valueEncoding,
         DecodeHeaders(v, r.headers), RawSize(r))
  }

  method DecodeRecord(v: Validity, r: Record, format: string) returns (item: Item)
    ensures item == Decode(v, r, format)
  {
    var (key, keyEncoding) := DecodeBytes(v, r.key, format);
    var (value, valueEncoding) := DecodeBytes(v, r.value, format);
    var headers := [];
    for i := 0 to |r.headers|
      invariant headers == DecodeHeaders(v, r.headers[..i])
    {
      assert r.headers[..i + 1][..i] == r.headers[..i];
      headers := headers + [DecodeHeader(v, r.headers[i])];
    }
    assert r.headers[..|r.headers|] == r.headers;
    item := Item(r.topic, r.partition, r.offset, r.timestamp, key, keyEncoding, value, valueEncoding,
                 headers, |r.key| + |r.value|);
  }

  // ---- Encode ----

  function EncodeValue(text: Bytes, encoding: string): Result<Bytes> {
    if encoding in {"", STRING, JSON} then Ok(text)
    else if encoding == BASE64 then DecodeBase64(text)
    else Err(Validation)
  }

  /** Encoding what decoding showed gives back the stored bytes, for every byte
      sequence, every format override and every notion of JSON and UTF-8 validity. */
  lemma VerbatimBytes(v: Validity, b: Bytes, format: string)
    ensures
      var (text, encoding) := DecodeBytes(v, b, format);
      EncodeValue(text, encoding) == Ok(b)
  {
    Base64RoundTrip(b);
  }

  lemma VerbatimHeader(v: Validity, h: Header)
    ensures EncodeValue(DecodeHeader(v, h).value, DecodeHeader(v, h).encoding) == Ok(h.value)
  {
    Base64RoundTrip(h.value);
  }

  // ---- What is shown, and what is accepted ----

  /** How bytes are shown: as the format asked for when they are valid in it, and otherwise
      as JSON if they are, as text if they are UTF-8, and as base64 last. */
  lemma ShownAs(v: Validity, b: Bytes, format: string)
    ensures
      var (text, encoding) := DecodeBytes(v, b, format);
      && (encoding == "base64" <==> format == "base64" || (!v.json(b) && !v.utf8(b)))
      && (encoding == "json" <==> format != "base64" && v.json(b) && !(format == "string" && v.utf8(b)))
      && (encoding == "string" <==> format != "base64" && v.utf8(b) && (format == "string" || !v.json(b)))
      && encoding in {"json", "string", "base64"}
      && (encoding == "base64" ==> text == EncodeBase64(b)) && (encoding != "base64" ==> text == b)
  {
  }

  /** A header value is text if it is UTF-8 and base64 otherwise, never JSON. */
  lemma HeaderShownAs(v: Validity, h: Header)
    ensures DecodeHeader(v, h) ==
      if v.utf8(h.value) then ItemHeader(h.key, h.value, "string")
      else ItemHeader(h.key, EncodeBase64(h.value), "base64")
  {
  }

  /** An item says where its record is, when it was written, how many bytes of key and
      value it has, and shows every header. */
  lemma ItemCarries(v: Validity, r: Record, format: string)
    ensures
      var item := Decode(v, r, format);
      && item.topic == r.topic && item.partition == r.partition && item.offset == r.offset
      && item.timestamp == r.timestamp && item.sizeBytes == |r.key| + |r.value|
      && (item.key, item.keyEncoding) == DecodeBytes(v, r.key, format)
      && (item.value, item.valueEncoding) == DecodeBytes(v, r.value, format)
      && |item.headers| == |r.headers| && forall i :: 0 <= i < |r.headers| ==> item.headers[i].key == r.headers[i].key
  {
    hide DecodeBytes;
  }

  /** Text given as json, string or nothing is taken as it is; other encodings than these
      and base64 are refused. */
  lemma EncodingsAccepted(text: Bytes, encoding: string)
    ensures encoding in {"", "string", "json"} ==> EncodeValue(text, encoding) == Ok(text)
    ensures encoding == "base64" ==> EncodeValue(text, encoding) == DecodeBase64(text)
    ensures encoding !in {"", "string", "json", "base64"} ==> EncodeValue(text, encoding).Err?
    ensures EncodeValue(text, encoding).Err? ==> EncodeValue(text, encoding).error == Validation
  {
    QuadErrors(WithoutNewlines(text));
  }

  lemma {:induction false} QuadErrors(s: Bytes)
    ensures DecodeQuads(s).Err? ==> DecodeQuads(s).error == Validation
  {
    if |s| >= 4 {
      QuadErrors(s[4..]);
    }
  }

  /** Symbols throughout, but for one or two paddings at the very end of the last quad. */
  ghost predicate IsBase64(s: Bytes) {
    && |s| % 4 == 0
    && (forall i :: 0 <= i < |s| - 2 ==> SymbolValue(s[i]).Some?)
    && (s != [] ==>
          || (SymbolValue(s[|s| - 2]).Some? && (SymbolValue(s[|s| - 1]).Some? || s[|s| - 1] == PAD))
          || (s[|s| - 2] == PAD && s[|s| - 1] == PAD))
  }

  /** Exactly the base64 texts decode, newlines aside. */
  lemma {:induction false} DecodableIff(s: Bytes)
    ensures DecodeQuads(s).Ok? <==> IsBase64(s)
  {
    if |s| == 4 {
      assert s[4..] == [] && DecodeQuads(s[4..]) == Ok([]);
      assert s == [s[0], s[1], s[2], s[3]];
    } else if |s| > 4 {
      DecodableIff(s[4..]);
      TailIsBase64(s);
    }
  }

  lemma TailIsBase64(s: Bytes)
    requires |s| > 4
    ensures IsBase64(s) <==> (forall i :: 0 <= i < 4 ==> SymbolValue(s[i]).Some?) && IsBase64(s[4..])
  {
    hide SymbolValue;
    var rest := s[4..];
    assert forall i :: 0 <= i < |rest| ==> rest[i] == s[i + 4];
    assert forall i :: 4 <= i < |s| ==> s[i] == rest[i - 4];
    if |s| % 4 == 0 {
      assert |s| >= 8;
    }
  }
}
