/**
 * The request that carries a signed payload from the edge to the aggregator: encoded by the
 * client (edge/network/client.py), checked by the server's schema and parsed back
 * (aggregator/src/api/server.ts). JSON itself is taken to carry strings and lists unchanged.
 */
module Wire {
  import opened Wrappers
  import opened Bytes
  import opened Canonical
  import opened Text
  import opened Poseidon

  datatype WireReading = WireReading(voltageMv: string, currentMa: string, timestampMs: string)

  datatype WirePayload = WirePayload(
    deviceId: string, sessionId: string, epochStartTs: string, latE7: string, lonE7: string,
    lightLevel: string, tamperFlag: string, readings: seq<WireReading>)

  datatype Request = Request(payload: WirePayload, signature: string, publicKey: string)

  // ---------- The client ----------

  function EncodeReading(r: Reading): WireReading {
    WireReading(Decimal(r.voltageMv), Decimal(r.currentMa), Decimal(r.timestampMs))
  }

  /** `_encode_request` refuses only keys and signatures of the wrong length. */
  function EncodeRequest(p: Payload, signature: seq<Byte>, publicKey: seq<Byte>): Result<Request, string> {
    if |signature| != 64 then Err("Expected 64-byte signature")
    else if |publicKey| != 64 then Err("Expected 64-byte public_key")
    else
      Ok(Request(
        WirePayload(
          Decimal(p.deviceId), Decimal(p.sessionId), Decimal(p.epochStartTs), Decimal(p.latE7), Decimal(p.lonE7),
          Decimal(p.lightLevel), Decimal(p.tamperFlag),
          seq(|p.readings|, i requires 0 <= i < |p.readings| => EncodeReading(p.readings[i]))),
        Hex(signature), Hex(publicKey)))
  }

  // ---------- The server's schema ----------

  const U64_MAX: nat := 0xFFFF_FFFF_FFFF_FFFF
  const LAT_MAX_E7: int := 900_000_000
  const LON_MAX_E7: int := 1_800_000_000

  predicate U64String(s: string) {
    IsNumeral(s, 10) && NumeralValue(s, 10) <= U64_MAX
  }

  predicate I64String(s: string) {
    IsDecimal(s) && IsI64(DecimalValue(s))
  }

  predicate LatSchema(s: string) {
    I64String(s) && -LAT_MAX_E7 <= DecimalValue(s) <= LAT_MAX_E7
  }

  predicate LonSchema(s: string) {
    I64String(s) && -LON_MAX_E7 <= DecimalValue(s) <= LON_MAX_E7
  }

  predicate TamperFlagSchema(s: string) {
    U64String(s) && (s == "0" || s == "1")
  }

  predicate Hex128(s: string) {
    |s| == 128 && IsLowerHex(s)
  }

  predicate ReadingSchema(r: WireReading) {
    U64String(r.voltageMv) && U64String(r.currentMa) && U64String(r.timestampMs)
  }

  predicate PayloadSchema(p: WirePayload) {
    && U64String(p.deviceId) && U64String(p.sessionId) && U64String(p.epochStartTs)
    && LatSchema(p.latE7) && LonSchema(p.lonE7)
    && U64String(p.lightLevel) && TamperFlagSchema(p.tamperFlag)
    && |p.readings| == 100
    && forall i :: 0 <= i < |p.readings| ==> ReadingSchema(p.readings[i])
  }

  predicate SubmissionSchema(req: Request) {
    PayloadSchema(req.payload) && Hex128(req.signature) && Hex128(req.publicKey)
  }

  function ParseReading(r: WireReading): Reading
    requires ReadingSchema(r)
  {
    Reading(NumeralValue(r.voltageMv, 10), NumeralValue(r.currentMa, 10), NumeralValue(r.timestampMs, 10))
  }

  function ParsePayload(p: WirePayload): Payload
    requires PayloadSchema(p)
  {
    Payload(
      NumeralValue(p.deviceId, 10), NumeralValue(p.sessionId, 10), NumeralValue(p.epochStartTs, 10),
      DecimalValue(p.latE7), DecimalValue(p.lonE7), NumeralValue(p.lightLevel, 10), NumeralValue(p.tamperFlag, 10),
      seq(|p.readings|, i requires 0 <= i < |p.readings| => ParseReading(p.readings[i])))
  }

  // ---------- Hexadecimal text read by JavaScript ----------

  predicate IsJsSpace(c: char) {
    || c == ' ' || '\t' <= c <= '\r' || c == '\U{00A0}' || c == '\U{1680}' || '\U{2000}' <= c <= '\U{200A}'
    || c == '\U{2028}' || c == '\U{2029}' || c == '\U{202F}' || c == '\U{205F}' || c == '\U{3000}' || c == '\U{FEFF}'
  }

  lemma JsSpaceCodes(c: char)
    ensures IsJsSpace(c) <==>
      || 9 <= c as int <= 13 || 0x2000 <= c as int <= 0x200A
      || c as int in {32, 0xA0, 0x1680, 0x2028, 0x2029, 0x202F, 0x205F, 0x3000, 0xFEFF}
  {
  }

  function TrimStart(s: string): string {
    if s != [] && IsJsSpace(s[0]) then TrimStart(s[1..]) else s
  }

  function HexDigit(c: char): Option<nat> {
    if IsDigit(c, 16) then Some(DigitValue(c))
    else if 'A' <= c <= 'F' then Some(c as int - 'A' as int + 10)
    else None
  }

  /** The value of the digits at the start of the text, after `v`. */
  function DigitsFrom(v: nat, s: string): nat
    decreases |s|
  {
    if s == [] || HexDigit(s[0]).None? then v else DigitsFrom(16 * v + HexDigit(s[0]).value, s[1..])
  }

  /** `parseInt(s, 16)`: white space, a sign and a prefix are skipped; the first other character ends it. */
  function ParseInt16(text: string): Option<int> {
    var t := TrimStart(text);
    var signed := t != [] && (t[0] == '-' || t[0] == '+');
    var u := if signed then t[1..] else t;
    var digits := if |u| >= 2 && u[0] == '0' && (u[1] == 'x' || u[1] == 'X') then u[2..] else u;
    if digits == [] || HexDigit(digits[0]).None? then None
    else Some(if signed && t[0] == '-' then 0 - DigitsFrom(0, digits) else DigitsFrom(0, digits))
  }

  /** The digits are the figures and the first six letters of either case, by value. */
  lemma FigureValues(c: char, v: nat)
    requires v < 16
    ensures HexDigit(c) == Some(v) <==> c == "0123456789abcdef"[v] || c == "0123456789ABCDEF"[v]
  {
  }

  lemma DigitsOfTwo(s: string)
    requires 1 <= |s| <= 2 && HexDigit(s[0]).Some?
    ensures |s| == 2 && HexDigit(s[1]).Some? ==> DigitsFrom(0, s) == 16 * HexDigit(s[0]).value + HexDigit(s[1]).value
    ensures |s| == 1 || HexDigit(s[1]).None? ==> DigitsFrom(0, s) == HexDigit(s[0]).value
  {
    var h := HexDigit(s[0]).value;
    assert DigitsFrom(0, s) == DigitsFrom(h, s[1..]);
    if |s| == 2 && HexDigit(s[1]).Some? {
      assert s[1..][0] == s[1] && s[1..][1..] == "";
      assert DigitsFrom(h, s[1..]) == DigitsFrom(16 * h + HexDigit(s[1]).value, "");
    }
  }

  /** What `parseInt` makes of a pair of characters: two digits, one digit behind space or sign, one before anything. */
  lemma PairMeaning(hi: char, lo: char)
    ensures var r, h, l := ParseInt16([hi, lo]), HexDigit(hi), HexDigit(lo);
            if hi == '0' && (lo == 'x' || lo == 'X') then r == None
            else if h.Some? then r == Some(if l.Some? then 16 * h.value + l.value else h.value)
            else if (IsJsSpace(hi) || hi == '+') && l.Some? then r == l
            else if hi == '-' && l.Some? then r == Some(0 - l.value)
            else r == None
  {
    var s := [hi, lo];
    assert s[1..] == [lo] && [lo][1..] == "" && s[2..] == "";
    assert TrimStart([lo]) == if IsJsSpace(lo) then "" else [lo];
    if HexDigit(hi).Some? {
      DigitsOfTwo(s);
    }
    if HexDigit(lo).Some? {
      DigitsOfTwo([lo]);
    }
    hide DigitsFrom;
  }

  /** What a number leaves in an element of a Uint8Array; NaN leaves 0. */
  function AsUint8(v: Option<int>): Byte {
    match v
    case None => 0
    case Some(n) => n % 256
  }

  /** NaN is stored as 0, and a negative number wraps. */
  lemma Uint8Values(n: nat)
    requires 0 < n <= 256
    ensures AsUint8(None) == 0 && AsUint8(Some(n - 1)) == n - 1 && AsUint8(Some(0 - n)) == 256 - n
  {
  }

  lemma PairParses(hi: char, lo: char)
    requires IsDigit(hi, 16) && IsDigit(lo, 16)
    ensures AsUint8(ParseInt16([hi, lo])) == PairValue(hi, lo)
  {
    PairMeaning(hi, lo);
    hide ParseInt16;
  }

  /**
   * The loop over character pairs, on any text: an odd last character is dropped, and each pair
   * becomes whatever `parseInt` makes of it. On the text the schema lets through it decodes.
   */
  method HexToBytes(hex: string) returns (bytes: seq<Byte>)
    ensures |bytes| == |hex| / 2
    ensures forall j :: 0 <= j < |bytes| ==> bytes[j] == AsUint8(ParseInt16(hex[2 * j..2 * j + 2]))
    ensures IsLowerHex(hex) && |hex| % 2 == 0 ==> bytes == HexBytes(hex)
  {
    hide ParseInt16, AsUint8;
    var out := new Byte[|hex| / 2](_ => 0);
    var i := 0;
    while i < |hex|
      invariant i % 2 == 0 && 0 <= i <= |hex| + 1
      invariant forall j :: 0 <= j < i / 2 && j < out.Length ==> out[j] == AsUint8(ParseInt16(hex[2 * j..2 * j + 2]))
    {
      var value := AsUint8(ParseInt16(hex[i..if i + 2 <= |hex| then i + 2 else |hex|]));
      if i / 2 < out.Length {
        out[i / 2] := value;
      }
      i := i + 2;
    }
    bytes := out[..];
    if IsLowerHex(hex) && |hex| % 2 == 0 {
      forall j | 0 <= j < |bytes|
        ensures bytes[j] == HexBytes(hex)[j]
      {
        PairParses(hex[2 * j], hex[2 * j + 1]);
        assert hex[2 * j..2 * j + 2] == [hex[2 * j], hex[2 * j + 1]];
      }
    }
  }

  // ---------- The round trip ----------

  /** What the server is willing to accept, in terms of values: narrower than the canonical ranges. */
  predicate WireRange(p: Payload) {
    && InRange(p) && |p.readings| == READINGS_PER_PAYLOAD
    && -900_000_000 <= p.latE7 <= 900_000_000
    && -1_800_000_000 <= p.lonE7 <= 1_800_000_000
    && 0 <= p.tamperFlag <= 1
  }

  lemma U64Text(v: int)
    ensures U64String(Decimal(v)) <==> IsU64(v)
    ensures IsU64(v) ==> NumeralValue(Decimal(v), 10) == v
  {
    DecimalRoundTrip(v);
    NumeralRoundTrip(if v < 0 then -v else v, 10);
  }

  lemma CoordinateText(v: int)
    ensures IsDecimal(Decimal(v)) && DecimalValue(Decimal(v)) == v
    ensures LatSchema(Decimal(v)) <==> -900_000_000 <= v <= 900_000_000
    ensures LonSchema(Decimal(v)) <==> -1_800_000_000 <= v <= 1_800_000_000
  {
    DecimalRoundTrip(v);
  }

  lemma CoordinatesAreI64(v: int)
    ensures -LON_MAX_E7 <= v <= LON_MAX_E7 ==> IsI64(v)
    ensures -LAT_MAX_E7 <= v <= LAT_MAX_E7 ==> IsI64(v)
    ensures 0 <= v <= 1 ==> IsU64(v)
  {
  }

  lemma TamperText(v: int)
    ensures TamperFlagSchema(Decimal(v)) <==> 0 <= v <= 1
  {
    U64Text(v);
    DecimalRoundTrip(v);
    assert Decimal(0) == "0" && Decimal(1) == "1";
    if Decimal(v) == "0" || Decimal(v) == "1" {
      DecimalRoundTrip(0);
      DecimalRoundTrip(1);
    }
  }

  lemma ReadingText(r: Reading)
    ensures ReadingSchema(EncodeReading(r)) <==> ReadingInRange(r)
    ensures ReadingInRange(r) ==> ParseReading(EncodeReading(r)) == r
  {
    U64Text(r.voltageMv);
    U64Text(r.currentMa);
    U64Text(r.timestampMs);
  }

  /** Each value travels under its own name. */
  lemma FieldsCarryTheirValues(p: Payload, signature: seq<Byte>, publicKey: seq<Byte>)
    requires |signature| == |publicKey| == 64
    ensures var req := EncodeRequest(p, signature, publicKey).value;
            && SameValue(req.payload.deviceId, p.deviceId) && SameValue(req.payload.sessionId, p.sessionId)
            && SameValue(req.payload.epochStartTs, p.epochStartTs)
            && SameValue(req.payload.latE7, p.latE7) && SameValue(req.payload.lonE7, p.lonE7)
            && SameValue(req.payload.lightLevel, p.lightLevel) && SameValue(req.payload.tamperFlag, p.tamperFlag)
            && |req.payload.readings| == |p.readings|
            && (forall i :: 0 <= i < |p.readings| ==>
                  && SameValue(req.payload.readings[i].voltageMv, p.readings[i].voltageMv)
                  && SameValue(req.payload.readings[i].currentMa, p.readings[i].currentMa)
                  && SameValue(req.payload.readings[i].timestampMs, p.readings[i].timestampMs))
            && req.signature == Hex(signature) && req.publicKey == Hex(publicKey)
  {
    forall v: int ensures SameValue(Decimal(v), v) {
      DecimalRoundTrip(v);
    }
    hide SameValue, Decimal, Hex;
  }

  predicate SameValue(text: string, v: int) {
    IsDecimal(text) && DecimalValue(text) == v
  }

  /**
   * The server accepts what the client sends exactly when there are 100 readings and every
   * value is in range, and then parses back the very integers and bytes that were sent.
   */
  lemma WireRoundTrip(p: Payload, signature: seq<Byte>, publicKey: seq<Byte>)
    ensures EncodeRequest(p, signature, publicKey).Ok? <==> |signature| == 64 && |publicKey| == 64
    ensures var sent := EncodeRequest(p, signature, publicKey);
            sent.Ok? ==>
              && (SubmissionSchema(sent.value) <==> WireRange(p))
              && (SubmissionSchema(sent.value) ==>
                    && ParsePayload(sent.value.payload) == p
                    && HexBytes(sent.value.signature) == signature
                    && HexBytes(sent.value.publicKey) == publicKey)
  {
    hide Decimal, DecimalValue, NumeralValue, IsNumeral, IsDecimal, IsLowerHex, Hex, HexBytes;
    hide U64String, I64String, LatSchema, LonSchema, TamperFlagSchema, ReadingSchema, IsU64, IsI64, ReadingInRange;
    hide EncodeReading, ParseReading;
    var sent := EncodeRequest(p, signature, publicKey);
    if sent.Ok? {
      U64Text(p.deviceId);
      U64Text(p.sessionId);
      U64Text(p.epochStartTs);
      CoordinateText(p.latE7);
      CoordinateText(p.lonE7);
      U64Text(p.lightLevel);
      U64Text(p.tamperFlag);
      TamperText(p.tamperFlag);
      CoordinatesAreI64(p.latE7);
      CoordinatesAreI64(p.lonE7);
      CoordinatesAreI64(p.tamperFlag);
      HexRoundTrip(signature);
      HexRoundTrip(publicKey);
      ReadingsText(p, sent.value.payload);
      if SubmissionSchema(sent.value) {
        assert ParsePayload(sent.value.payload).readings == p.readings;
      }
    }
  }

  lemma ReadingsText(p: Payload, w: WirePayload)
    requires w.readings == seq(|p.readings|, i requires 0 <= i < |p.readings| => EncodeReading(p.readings[i]))
    ensures (forall i :: 0 <= i < |w.readings| ==> ReadingSchema(w.readings[i]))
       <==> forall r <- p.readings :: ReadingInRange(r)
    ensures forall i :: 0 <= i < |w.readings| && ReadingSchema(w.readings[i]) ==>
              ParseReading(w.readings[i]) == p.readings[i]
  {
    forall i | 0 <= i < |p.readings|
      ensures ReadingSchema(w.readings[i]) <==> ReadingInRange(p.readings[i])
      ensures ReadingSchema(w.readings[i]) ==> ParseReading(w.readings[i]) == p.readings[i]
    {
      ReadingText(p.readings[i]);
    }
    if forall i :: 0 <= i < |w.readings| ==> ReadingSchema(w.readings[i]) {
      forall r <- p.readings ensures ReadingInRange(r) {
        var i :| 0 <= i < |p.readings| && p.readings[i] == r;
        assert ReadingSchema(w.readings[i]);
      }
    }
  }

  /** Whoever sent it, an accepted request parses to a payload in range, so no encoder wraps or raises on it. */
  lemma AcceptedIsInRange(req: Request)
    requires SubmissionSchema(req)
    ensures WireRange(ParsePayload(req.payload))
    ensures |HexBytes(req.signature)| == |HexBytes(req.publicKey)| == 64
  {
    var p := ParsePayload(req.payload);
    forall r <- p.readings ensures ReadingInRange(r) {
      var i :| 0 <= i < |p.readings| && p.readings[i] == r;
      assert ReadingSchema(req.payload.readings[i]);
    }
    assert NumeralValue("0", 10) == 0 && NumeralValue("1", 10) == 1 by {
      assert "0"[..0] == "" && "1"[..0] == "";
    }
  }

  /** What the edge hashes and what the worker hashes once the server has accepted the request are the same bytes. */
  method SubmitAndHash(perm: Permutation, p: Payload, signature: seq<Byte>, publicKey: seq<Byte>)
    returns (edge: Result<seq<Byte>, string>, server: Result<seq<Byte>, string>)
    requires |signature| == |publicKey| == 64
    ensures server.Ok? <==> WireRange(p)
    ensures server.Ok? ==> edge == server
  {
    edge := EdgeComputePayloadHash(perm, p);
    WireRoundTrip(p, signature, publicKey);
    var req := EncodeRequest(p, signature, publicKey).value;
    if SubmissionSchema(req) {
      server := ComputePayloadHash(perm, ParsePayload(req.payload));
    } else {
      server := Err("ValidationFailed");
    }
  }

  // ---------- The session key that identifies a job ----------

  /** The 16 bytes that are hashed into the job id. */
  function SessionKeyPreimage(deviceId: int, sessionId: int): seq<Byte> {
    WordBytes(AsWord(deviceId)) + WordBytes(AsWord(sessionId))
  }

  /** Sixteen bytes: the device id and then the session id, most significant byte first. */
  lemma SessionKeyBytes(deviceId: int, sessionId: int)
    requires IsU64(deviceId) && IsU64(sessionId)
    ensures var bytes := SessionKeyPreimage(deviceId, sessionId);
            && |bytes| == 16
            && (forall i :: 0 <= i < 8 ==> bytes[..8][i] == deviceId / Pow256(7 - i) % 256)
            && (forall i :: 0 <= i < 8 ==> bytes[8..][i] == sessionId / Pow256(7 - i) % 256)
  {
    WordsInRange(deviceId);
    WordsInRange(sessionId);
    hide WordBytes, AsWord, Pow256;
    var bytes := SessionKeyPreimage(deviceId, sessionId);
    assert bytes[..8] == WordBytes(deviceId) && bytes[8..] == WordBytes(sessionId);
    forall i | 0 <= i < 8
      ensures bytes[..8][i] == deviceId / Pow256(7 - i) % 256
      ensures bytes[8..][i] == sessionId / Pow256(7 - i) % 256
    {
      WordByteAt(deviceId, i);
      WordByteAt(sessionId, i);
    }
  }

  lemma SessionKeyPreimagesEqual(d: Word, s: Word, d': Word, s': Word)
    ensures WordBytes(d) + WordBytes(s) == WordBytes(d') + WordBytes(s') <==> d == d' && s == s'
  {
    hide WordBytes;
    var x, y := WordBytes(d) + WordBytes(s), WordBytes(d') + WordBytes(s');
    assert x[..8] == WordBytes(d) && x[8..] == WordBytes(s);
    assert y[..8] == WordBytes(d') && y[8..] == WordBytes(s');
    WordBytesInjective(d, d');
    WordBytesInjective(s, s');
  }

  /**
   * Payloads in range, as every accepted request's is, share a session-key pre-image only if
   * they name the same device and session.
   */
  lemma SessionKeysIdentifySessions(p: Payload, q: Payload)
    requires InRange(p) && InRange(q)
    ensures SessionKeyPreimage(p.deviceId, p.sessionId) == SessionKeyPreimage(q.deviceId, q.sessionId)
       <==> p.deviceId == q.deviceId && p.sessionId == q.sessionId
  {
    hide WordBytes, AsWord;
    WordsInRange(p.deviceId);
    WordsInRange(p.sessionId);
    WordsInRange(q.deviceId);
    WordsInRange(q.sessionId);
    SessionKeyPreimagesEqual(p.deviceId, p.sessionId, q.deviceId, q.sessionId);
  }
}
