/**
 * The canonical form of a payload: seven metadata words and three words per reading, each an
 * eight-byte big-endian slot. It is produced by two encoders, a TypeScript one that writes
 * through an offset into a fixed buffer (aggregator/src/verify/canonical.ts) and a Python one
 * that concatenates (edge/hal/canonical.py), and hashed by the Poseidon sponge on both sides.
 */
module Canonical {
  import opened Wrappers
  import opened Bytes
  import opened Poseidon

  datatype Reading = Reading(voltageMv: int, currentMa: int, timestampMs: int)

  datatype Payload = Payload(
    deviceId: int, sessionId: int, epochStartTs: int, latE7: int, lonE7: int,
    lightLevel: int, tamperFlag: int, readings: seq<Reading>)

  const READINGS_PER_PAYLOAD: nat := 100
  const READING_BYTES: nat := 24
  const METADATA_BYTES: nat := 56
  const EXPECTED_PAYLOAD_BYTES: nat := METADATA_BYTES + READINGS_PER_PAYLOAD * READING_BYTES
  const EXPECTED_FIELD_ELEMENTS: nat := EXPECTED_PAYLOAD_BYTES / 8

  predicate IsU64(v: int) {
    0 <= v < TWO_64
  }

  predicate IsI64(v: int) {
    -0x8000_0000_0000_0000 <= v < 0x8000_0000_0000_0000
  }

  predicate ReadingInRange(r: Reading) {
    IsU64(r.voltageMv) && IsU64(r.currentMa) && IsU64(r.timestampMs)
  }

  /** Every value fits its eight-byte slot: two signed coordinates, everything else unsigned. */
  predicate InRange(p: Payload) {
    && IsU64(p.deviceId) && IsU64(p.sessionId) && IsU64(p.epochStartTs)
    && IsI64(p.latE7) && IsI64(p.lonE7)
    && IsU64(p.lightLevel) && IsU64(p.tamperFlag)
    && forall r <- p.readings :: ReadingInRange(r)
  }

  // ---------- Reference: the words of a payload ----------

  function ReadingWords(r: Reading): (ws: seq<Word>)
    ensures |ws| == 3
  {
    [AsWord(r.voltageMv), AsWord(r.currentMa), AsWord(r.timestampMs)]
  }

  function AllReadingWords(rs: seq<Reading>): (ws: seq<Word>)
    ensures |ws| == 3 * |rs|
  {
    if rs == [] then [] else AllReadingWords(rs[..|rs| - 1]) + ReadingWords(rs[|rs| - 1])
  }

  function MetadataWords(p: Payload): (ws: seq<Word>)
    ensures |ws| == 7
  {
    [AsWord(p.deviceId), AsWord(p.sessionId), AsWord(p.epochStartTs), AsWord(p.latE7), AsWord(p.lonE7),
     AsWord(p.lightLevel), AsWord(p.tamperFlag)]
  }

  function Words(p: Payload): (ws: seq<Word>)
    ensures |ws| == 7 + 3 * |p.readings|
  {
    MetadataWords(p) + AllReadingWords(p.readings)
  }

  lemma {:induction false} ReadingWordsAt(rs: seq<Reading>, i: nat)
    requires i < |rs|
    ensures AllReadingWords(rs)[3 * i] == AsWord(rs[i].voltageMv)
    ensures AllReadingWords(rs)[3 * i + 1] == AsWord(rs[i].currentMa)
    ensures AllReadingWords(rs)[3 * i + 2] == AsWord(rs[i].timestampMs)
  {
    if i < |rs| - 1 {
      ReadingWordsAt(rs[..|rs| - 1], i);
    }
  }

  // ---------- What the words tell about the payload ----------

  /** Equal modulo 2^64 in every field. */
  ghost predicate Congruent(p: Payload, q: Payload) {
    && AsWord(p.deviceId) == AsWord(q.deviceId) && AsWord(p.sessionId) == AsWord(q.sessionId)
    && AsWord(p.epochStartTs) == AsWord(q.epochStartTs)
    && AsWord(p.latE7) == AsWord(q.latE7) && AsWord(p.lonE7) == AsWord(q.lonE7)
    && AsWord(p.lightLevel) == AsWord(q.lightLevel) && AsWord(p.tamperFlag) == AsWord(q.tamperFlag)
    && |p.readings| == |q.readings|
    && forall i :: 0 <= i < |p.readings| ==> ReadingWords(p.readings[i]) == ReadingWords(q.readings[i])
  }

  lemma {:induction false} EqualReadingWords(a: seq<Reading>, b: seq<Reading>)
    requires |a| == |b|
    ensures AllReadingWords(a) == AllReadingWords(b)
       <==> forall i :: 0 <= i < |a| ==> ReadingWords(a[i]) == ReadingWords(b[i])
  {
    if a != [] {
      var n := |a| - 1;
      EqualReadingWords(a[..n], b[..n]);
      var wa, wb := AllReadingWords(a), AllReadingWords(b);
      assert wa[..3 * n] == AllReadingWords(a[..n]) && wa[3 * n..] == ReadingWords(a[n]);
      assert wb[..3 * n] == AllReadingWords(b[..n]) && wb[3 * n..] == ReadingWords(b[n]);
      assert wa == wa[..3 * n] + wa[3 * n..] && wb == wb[..3 * n] + wb[3 * n..];
    }
  }

  lemma EqualWords(p: Payload, q: Payload)
    requires |p.readings| == |q.readings|
    ensures Words(p) == Words(q) <==> Congruent(p, q)
  {
    EqualReadingWords(p.readings, q.readings);
    assert Words(p)[..7] == MetadataWords(p) && Words(p)[7..] == AllReadingWords(p.readings);
    assert Words(q)[..7] == MetadataWords(q) && Words(q)[7..] == AllReadingWords(q.readings);
    var a, b := MetadataWords(p), MetadataWords(q);
    assert a == b <==> (a[0] == b[0] && a[1] == b[1] && a[2] == b[2] && a[3] == b[3]
                        && a[4] == b[4] && a[5] == b[5] && a[6] == b[6]);
  }

  /** Two's complement: the signed value a word stands for. */
  function AsSigned(w: Word): int {
    if w < 0x8000_0000_0000_0000 then w else w - TWO_64
  }

  function DecodeReadings(ws: seq<Word>): seq<Reading>
    requires |ws| % 3 == 0
  {
    if ws == [] then []
    else
      var n := |ws| - 3;
      DecodeReadings(ws[..n]) + [Reading(ws[n], ws[n + 1], ws[n + 2])]
  }

  /** The inverse of the canonical form. */
  function DecodePayload(bytes: seq<Byte>): Payload
    requires |bytes| == EXPECTED_PAYLOAD_BYTES
  {
    var ws := DecodeWords(bytes);
    Payload(ws[0], ws[1], ws[2], AsSigned(ws[3]), AsSigned(ws[4]), ws[5], ws[6], DecodeReadings(ws[7..]))
  }

  /** A value is in range exactly if its slot reads back as that value. */
  lemma WordsInRange(v: int)
    ensures IsU64(v) <==> AsWord(v) == v
    ensures IsI64(v) <==> AsSigned(AsWord(v)) == v
    ensures IsU64(v) <==> 0 <= v <= 18_446_744_073_709_551_615
    ensures IsI64(v) <==> -9_223_372_036_854_775_808 <= v <= 9_223_372_036_854_775_807
  {
  }

  lemma DecodeReadingsSnoc(ws: seq<Word>, three: seq<Word>)
    requires |ws| % 3 == 0 && |three| == 3
    ensures DecodeReadings(ws + three) == DecodeReadings(ws) + [Reading(three[0], three[1], three[2])]
  {
    assert (ws + three)[..|ws|] == ws;
  }

  lemma DecodeOneReading(r: Reading)
    requires ReadingInRange(r)
    ensures var ws := ReadingWords(r); Reading(ws[0], ws[1], ws[2]) == r
  {
  }

  lemma {:induction false} DecodeReadingWords(rs: seq<Reading>)
    requires forall r <- rs :: ReadingInRange(r)
    ensures DecodeReadings(AllReadingWords(rs)) == rs
  {
    hide AsWord, ReadingInRange, ReadingWords;
    if rs != [] {
      var init, last := rs[..|rs| - 1], rs[|rs| - 1];
      assert forall r <- init :: r in rs;
      DecodeReadingWords(init);
      DecodeOneReading(last);
      DecodeReadingsSnoc(AllReadingWords(init), ReadingWords(last));
      assert rs == init + [last];
    }
  }

  /** The canonical form can be decoded: no two in-range payloads share it. */
  lemma CanonicalRoundTrip(p: Payload)
    requires |p.readings| == READINGS_PER_PAYLOAD && InRange(p)
    ensures |EncodeWords(Words(p))| == EXPECTED_PAYLOAD_BYTES
    ensures DecodePayload(EncodeWords(Words(p))) == p
  {
    DecodeEncodeWords(Words(p));
    DecodeReadingWords(p.readings);
    assert Words(p)[7..] == AllReadingWords(p.readings);
    WordsInRange(p.latE7);
    WordsInRange(p.lonE7);
  }

  lemma SlotNumber(ws: seq<Word>, i: nat)
    requires i < |ws|
    ensures FromBytes(EncodeWords(ws)[8 * i..8 * i + 8]) == ws[i]
  {
    WordAt(ws, i);
    Pow256Values();
    FromToBytes(ws[i], 8);
  }

  /** The 2456 bytes, number by number: two's complement for the coordinates, 24 bytes a reading from byte 56 on. */
  lemma CanonicalLayout(p: Payload)
    requires |p.readings| == 100 && InRange(p)
    ensures var bytes := EncodeWords(Words(p));
            && |bytes| == 2456
            && FromBytes(bytes[0..8]) == p.deviceId && FromBytes(bytes[8..16]) == p.sessionId
            && FromBytes(bytes[16..24]) == p.epochStartTs
            && FromBytes(bytes[24..32]) == (if p.latE7 >= 0 then p.latE7 else p.latE7 + 0x1_0000_0000_0000_0000)
            && FromBytes(bytes[32..40]) == (if p.lonE7 >= 0 then p.lonE7 else p.lonE7 + 0x1_0000_0000_0000_0000)
            && FromBytes(bytes[40..48]) == p.lightLevel && FromBytes(bytes[48..56]) == p.tamperFlag
    ensures var bytes := EncodeWords(Words(p));
            forall i :: 0 <= i < 100 ==>
              && FromBytes(bytes[56 + 24 * i..64 + 24 * i]) == p.readings[i].voltageMv
              && FromBytes(bytes[64 + 24 * i..72 + 24 * i]) == p.readings[i].currentMa
              && FromBytes(bytes[72 + 24 * i..80 + 24 * i]) == p.readings[i].timestampMs
  {
    var ws := Words(p);
    MetadataNumbers(p);
    forall j | 0 <= j < |ws| ensures FromBytes(EncodeWords(ws)[8 * j..8 * j + 8]) == ws[j] {
      SlotNumber(ws, j);
    }
    forall i | 0 <= i < 100
      ensures ws[7 + 3 * i] == p.readings[i].voltageMv && ws[8 + 3 * i] == p.readings[i].currentMa
           && ws[9 + 3 * i] == p.readings[i].timestampMs
    {
      ReadingNumbers(p, i);
    }
    hide FromBytes, EncodeWords, Words, InRange;
    assert ws[0] == p.deviceId && ws[1] == p.sessionId && ws[2] == p.epochStartTs;
    SlotsInPlace(EncodeWords(ws), ws);
  }

  /** The same slots, counted in bytes. */
  lemma SlotsInPlace(bytes: seq<Byte>, ws: seq<Word>)
    requires |ws| == 307 && |bytes| == 8 * |ws|
    requires forall j :: 0 <= j < |ws| ==> FromBytes(bytes[8 * j..8 * j + 8]) == ws[j]
    ensures FromBytes(bytes[0..8]) == ws[0] && FromBytes(bytes[8..16]) == ws[1] && FromBytes(bytes[16..24]) == ws[2]
    ensures FromBytes(bytes[24..32]) == ws[3] && FromBytes(bytes[32..40]) == ws[4]
    ensures FromBytes(bytes[40..48]) == ws[5] && FromBytes(bytes[48..56]) == ws[6]
    ensures forall i :: 0 <= i < 100 ==>
              && FromBytes(bytes[56 + 24 * i..64 + 24 * i]) == ws[7 + 3 * i]
              && FromBytes(bytes[64 + 24 * i..72 + 24 * i]) == ws[8 + 3 * i]
              && FromBytes(bytes[72 + 24 * i..80 + 24 * i]) == ws[9 + 3 * i]
  {
    hide FromBytes;
    SlotAtByte(bytes, ws, 0);
    SlotAtByte(bytes, ws, 1);
    SlotAtByte(bytes, ws, 2);
    SlotAtByte(bytes, ws, 3);
    SlotAtByte(bytes, ws, 4);
    SlotAtByte(bytes, ws, 5);
    SlotAtByte(bytes, ws, 6);
    forall i | 0 <= i < 100
      ensures FromBytes(bytes[56 + 24 * i..64 + 24 * i]) == ws[7 + 3 * i]
      ensures FromBytes(bytes[64 + 24 * i..72 + 24 * i]) == ws[8 + 3 * i]
      ensures FromBytes(bytes[72 + 24 * i..80 + 24 * i]) == ws[9 + 3 * i]
    {
      SlotAtByte(bytes, ws, 7 + 3 * i);
      SlotAtByte(bytes, ws, 8 + 3 * i);
      SlotAtByte(bytes, ws, 9 + 3 * i);
    }
  }

  lemma SlotAtByte(bytes: seq<Byte>, ws: seq<Word>, j: nat)
    requires |bytes| == 8 * |ws| && j < |ws|
    requires forall i :: 0 <= i < |ws| ==> FromBytes(bytes[8 * i..8 * i + 8]) == ws[i]
    ensures FromBytes(bytes[8 * j..8 * j + 8]) == ws[j]
  {
  }

  lemma MetadataNumbers(p: Payload)
    requires InRange(p)
    ensures var ws := Words(p);
            && ws[0] == p.deviceId && ws[1] == p.sessionId && ws[2] == p.epochStartTs
            && ws[3] == (if p.latE7 >= 0 then p.latE7 else p.latE7 + 0x1_0000_0000_0000_0000)
            && ws[4] == (if p.lonE7 >= 0 then p.lonE7 else p.lonE7 + 0x1_0000_0000_0000_0000)
            && ws[5] == p.lightLevel && ws[6] == p.tamperFlag
  {
    hide AllReadingWords;
  }

  lemma ReadingNumbers(p: Payload, i: nat)
    requires InRange(p) && i < |p.readings|
    ensures Words(p)[7 + 3 * i] == p.readings[i].voltageMv
    ensures Words(p)[8 + 3 * i] == p.readings[i].currentMa
    ensures Words(p)[9 + 3 * i] == p.readings[i].timestampMs
  {
    ReadingWordsAt(p.readings, i);
    assert ReadingInRange(p.readings[i]);
    hide AllReadingWords, MetadataWords;
  }

  /**
   * On values of any size the offset-writing encoder, which wraps where the other raises, gives
   * two payloads the same bytes exactly when they agree modulo 2^64 in every field.
   */
  lemma CanonicalCollisionsAreCongruences(p: Payload, q: Payload)
    requires |p.readings| == |q.readings|
    ensures EncodeWords(Words(p)) == EncodeWords(Words(q)) <==> Congruent(p, q)
  {
    DecodeEncodeWords(Words(p));
    DecodeEncodeWords(Words(q));
    EqualWords(p, q);
  }

  // ---------- The TypeScript encoder ----------

  /** `DataView.setBigUint64` and `setBigInt64`: the low 64 bits, big-endian, at an offset. */
  method SetWord(buf: array<Byte>, offset: nat, v: int)
    requires offset + 8 <= buf.Length
    modifies buf
    ensures buf[..offset] == old(buf[..offset])
    ensures buf[..offset + 8] == old(buf[..offset]) + WordBytes(AsWord(v))
  {
    var bytes := WordBytes(AsWord(v));
    forall k | 0 <= k < 8 {
      buf[offset + k] := bytes[k];
    }
    assert buf[offset..offset + 8] == bytes;
    assert buf[..offset + 8] == buf[..offset] + buf[offset..offset + 8];
  }

  /** Fails exactly when there are not 100 readings; never on a value out of range, which wraps. */
  method Canonicalize(payload: Payload) returns (r: Result<seq<Byte>, string>)
    ensures r == if |payload.readings| == READINGS_PER_PAYLOAD then Ok(EncodeWords(Words(payload)))
                 else Err("Expected 100 readings")
  {
    if |payload.readings| != READINGS_PER_PAYLOAD {
      return Err("Expected 100 readings");
    }
    hide EncodeWords, AllReadingWords, MetadataWords, AsWord, WordBytes;
    var buf := new Byte[EXPECTED_PAYLOAD_BYTES](_ => 0);
    var offset := WriteMetadata(buf, payload);
    NoReadings(MetadataWords(payload), payload.readings);
    for k := 0 to |payload.readings|
      invariant offset == METADATA_BYTES + READING_BYTES * k
      invariant buf.Length == EXPECTED_PAYLOAD_BYTES
      invariant buf[..offset] == EncodeWords(MetadataWords(payload) + AllReadingWords(payload.readings[..k]))
    {
      offset := WriteReading(buf, offset, payload.readings[k],
                             MetadataWords(payload) + AllReadingWords(payload.readings[..k]));
      AnotherReading(MetadataWords(payload), payload.readings, k);
    }
    assert payload.readings[..|payload.readings|] == payload.readings;
    assert buf[..offset] == buf[..];
    if offset != EXPECTED_PAYLOAD_BYTES {
      return Err("Canonical encoding wrong size");
    }
    return Ok(buf[..]);
  }

  method WriteReading(buf: array<Byte>, start: nat, reading: Reading, ghost done: seq<Word>) returns (offset: nat)
    requires start + READING_BYTES <= buf.Length
    requires buf[..start] == EncodeWords(done)
    modifies buf
    ensures offset == start + READING_BYTES
    ensures buf[..offset] == EncodeWords(
              done + [AsWord(reading.voltageMv)] + [AsWord(reading.currentMa)] + [AsWord(reading.timestampMs)])
  {
    hide EncodeWords, AsWord, WordBytes;
    offset := start;
    SetWord(buf, offset, reading.voltageMv);
    EncodeWordsSnoc(done, AsWord(reading.voltageMv));
    offset := offset + 8;
    SetWord(buf, offset, reading.currentMa);
    EncodeWordsSnoc(done + [AsWord(reading.voltageMv)], AsWord(reading.currentMa));
    offset := offset + 8;
    SetWord(buf, offset, reading.timestampMs);
    EncodeWordsSnoc(done + [AsWord(reading.voltageMv)] + [AsWord(reading.currentMa)], AsWord(reading.timestampMs));
    offset := offset + 8;
  }

  lemma NoReadings(before: seq<Word>, rs: seq<Reading>)
    ensures before + AllReadingWords(rs[..0]) == before
  {
  }

  lemma AnotherReading(before: seq<Word>, rs: seq<Reading>, k: nat)
    requires k < |rs|
    ensures before + AllReadingWords(rs[..k + 1])
         == before + AllReadingWords(rs[..k])
            + [AsWord(rs[k].voltageMv)] + [AsWord(rs[k].currentMa)] + [AsWord(rs[k].timestampMs)]
  {
    assert rs[..k + 1][..k] == rs[..k];
  }

  method WriteMetadata(buf: array<Byte>, payload: Payload) returns (offset: nat)
    requires buf.Length >= METADATA_BYTES
    modifies buf
    ensures offset == METADATA_BYTES
    ensures buf[..offset] == EncodeWords(MetadataWords(payload))
  {
    var values := [payload.deviceId, payload.sessionId, payload.epochStartTs, payload.latE7, payload.lonE7,
                   payload.lightLevel, payload.tamperFlag];
    hide EncodeWords, AsWord, WordBytes;
    EncodeNothing();
    offset := 0;
    for k := 0 to 7
      invariant offset == 8 * k
      invariant buf[..offset] == EncodeWords(MetadataWords(payload)[..k])
    {
      SetWord(buf, offset, values[k]);
      EncodeWordsSnoc(MetadataWords(payload)[..k], AsWord(values[k]));
      assert MetadataWords(payload)[..k + 1] == MetadataWords(payload)[..k] + [AsWord(values[k])];
      offset := offset + 8;
    }
    assert MetadataWords(payload)[..7] == MetadataWords(payload);
  }

  /** Unpacking into field elements inverts the packing; it fails exactly on a ragged length. */
  method BytesToFieldElements(bytes: seq<Byte>) returns (r: Result<seq<Word>, string>)
    ensures r.Err? <==> |bytes| % 8 != 0
    ensures r.Ok? ==> r.value == DecodeWords(bytes) && EncodeWords(r.value) == bytes
  {
    if |bytes| % 8 != 0 {
      return Err("Bytes length must be multiple of 8");
    }
    var elements := new Word[|bytes| / 8](_ => 0);
    var i := 0;
    while i < |bytes|
      invariant i % 8 == 0 && 0 <= i <= |bytes|
      invariant elements[..i / 8] == DecodeWords(bytes[..i])
    {
      elements[i / 8] := BytesWord(bytes[i..i + 8]);
      DecodeWordsSnoc(bytes[..i], bytes[i..i + 8]);
      assert bytes[..i + 8] == bytes[..i] + bytes[i..i + 8];
      assert elements[..(i + 8) / 8] == elements[..i / 8] + [elements[i / 8]];
      i := i + 8;
    }
    assert bytes[..i] == bytes && elements[..i / 8] == elements[..];
    EncodeDecodeWords(bytes);
    return Ok(elements[..]);
  }

  /** Moving the lowest byte of what is left to the front of what is written. */
  lemma OneByteMore(value: nat, v: nat, i: nat, byteLength: nat, tail: seq<Byte>)
    requires i > 0 && ToBytes(value, byteLength) == ToBytes(v, i) + tail
    ensures ToBytes(value, byteLength) == ToBytes(v / 256, i - 1) + ([v % 256] + tail)
    ensures v < Pow256(i) <==> v / 256 < Pow256(i - 1)
  {
    assert ToBytes(v, i) == ToBytes(v / 256, i - 1) + [v % 256];
    assert Pow256(i) == 256 * Pow256(i - 1);
    hide ToBytes, Pow256;
    assert ToBytes(v / 256, i - 1) + [v % 256] + tail == ToBytes(v / 256, i - 1) + ([v % 256] + tail);
  }

  lemma NoByteYet(v: nat, n: nat)
    ensures ToBytes(v, n) + [] == ToBytes(v, n)
    ensures ToBytes(v, 0) == [] && Pow256(0) == 1
  {
  }

  /** Fixed-length big-endian bytes; fails exactly on negative and on overflowing values. */
  method BigintToBytesBE(value: int, byteLength: nat) returns (r: Result<seq<Byte>, string>)
    ensures r.Ok? <==> 0 <= value < Pow256(byteLength)
    ensures r.Ok? ==> r.value == ToBytes(value, byteLength) && FromBytes(r.value) == value
  {
    if value < 0 {
      return Err("negative values not supported");
    }
    var out := new Byte[byteLength](_ => 0);
    var v, i := value, byteLength;
    NoByteYet(value, byteLength);
    assert out[byteLength..] == [];
    hide ToBytes, Pow256;
    while i > 0
      invariant 0 <= i <= byteLength && 0 <= v
      invariant ToBytes(value, byteLength) == ToBytes(v, i) + out[i..]
      invariant value < Pow256(byteLength) <==> v < Pow256(i)
    {
      OneByteMore(value, v, i, byteLength, out[i..]);
      i := i - 1;
      ghost var tail := out[i + 1..];
      out[i] := v % 256;
      assert out[i..] == [v % 256] + tail;
      v := v / 256;
    }
    NoByteYet(v, 0);
    if v != 0 {
      return Err("value overflows");
    }
    FromToBytes(value, byteLength);
    assert [] + out[0..] == out[..];
    return Ok(out[..]);
  }

  /** Reading back the bytes (aggregator/src/prover/witness.ts). */
  method BytesToBigIntBE(bytes: seq<Byte>) returns (v: nat)
    ensures v == FromBytes(bytes) && v < Pow256(|bytes|)
  {
    v := 0;
    for k := 0 to |bytes|
      invariant v == FromBytes(bytes[..k])
    {
      assert bytes[..k + 1][..k] == bytes[..k];
      v := 256 * v + bytes[k];
    }
    assert bytes[..|bytes|] == bytes;
    ToFromBytes(bytes);
  }

  // ---------- The Python encoder ----------

  /** `struct.pack(">Q", v)` or `struct.pack(">q", v)`, which raise on a value out of range. */
  function StructPack(v: int, signed: bool): Result<seq<Byte>, string> {
    if (if signed then IsI64(v) else IsU64(v)) then Ok(WordBytes(AsWord(v))) else Err("struct.error")
  }

  method PackMetadata(payload: Payload) returns (r: Result<seq<Byte>, string>)
    ensures r.Ok? <==> InRange(payload.(readings := []))
    ensures r.Ok? ==> r.value == EncodeWords(MetadataWords(payload))
  {
    var values := [payload.deviceId, payload.sessionId, payload.epochStartTs, payload.latE7, payload.lonE7,
                   payload.lightLevel, payload.tamperFlag];
    hide EncodeWords, AsWord, WordBytes;
    EncodeNothing();
    var out := [];
    for k := 0 to 7
      invariant forall i :: 0 <= i < k ==> StructPack(values[i], i == 3 || i == 4).Ok?
      invariant out == EncodeWords(MetadataWords(payload)[..k])
    {
      var packed := StructPack(values[k], k == 3 || k == 4);
      if packed.Err? {
        return Err(packed.error);
      }
      EncodeWordsSnoc(MetadataWords(payload)[..k], AsWord(values[k]));
      assert MetadataWords(payload)[..k + 1] == MetadataWords(payload)[..k] + [AsWord(values[k])];
      out := out + packed.value;
    }
    assert MetadataWords(payload)[..7] == MetadataWords(payload);
    assert StructPack(values[0], false).Ok? && StructPack(values[1], false).Ok? && StructPack(values[2], false).Ok?;
    assert StructPack(values[3], true).Ok? && StructPack(values[4], true).Ok?;
    assert StructPack(values[5], false).Ok? && StructPack(values[6], false).Ok?;
    return Ok(out);
  }

  /** Succeeds exactly on 100 readings with every value in range, and then with the same bytes. */
  method EdgeCanonicalize(payload: Payload) returns (r: Result<seq<Byte>, string>)
    ensures r.Ok? <==> |payload.readings| == READINGS_PER_PAYLOAD && InRange(payload)
    ensures r.Ok? ==> r.value == EncodeWords(Words(payload))
  {
    if |payload.readings| != READINGS_PER_PAYLOAD {
      return Err("Expected 100 readings");
    }
    var metadata := PackMetadata(payload);
    if metadata.Err? {
      return Err(metadata.error);
    }
    hide EncodeWords, AllReadingWords, MetadataWords, AsWord, WordBytes;
    var out := metadata.value;
    NoReadings(MetadataWords(payload), payload.readings);
    for k := 0 to |payload.readings|
      invariant forall i :: 0 <= i < k ==> ReadingInRange(payload.readings[i])
      invariant out == EncodeWords(MetadataWords(payload) + AllReadingWords(payload.readings[..k]))
    {
      var reading := payload.readings[k];
      var v, c, t := StructPack(reading.voltageMv, false), StructPack(reading.currentMa, false),
                     StructPack(reading.timestampMs, false);
      if v.Err? || c.Err? || t.Err? {
        assert !ReadingInRange(payload.readings[k]);
        return Err("struct.error");
      }
      ghost var done := MetadataWords(payload) + AllReadingWords(payload.readings[..k]);
      EncodeWordsSnoc(done, AsWord(reading.voltageMv));
      EncodeWordsSnoc(done + [AsWord(reading.voltageMv)], AsWord(reading.currentMa));
      EncodeWordsSnoc(done + [AsWord(reading.voltageMv)] + [AsWord(reading.currentMa)], AsWord(reading.timestampMs));
      AnotherReading(MetadataWords(payload), payload.readings, k);
      out := out + v.value;
      out := out + c.value;
      out := out + t.value;
    }
    assert payload.readings[..|payload.readings|] == payload.readings;
    return Ok(out);
  }

  // ---------- The payload hash ----------

  /** `computePayloadHash`: fails exactly when there are not 100 readings. */
  method ComputePayloadHash(perm: Permutation, payload: Payload) returns (r: Result<seq<Byte>, string>)
    ensures r.Ok? <==> |payload.readings| == READINGS_PER_PAYLOAD
    ensures r.Ok? ==> r.value == ToBytes(Sponge(perm, Words(payload)), 32)
    ensures r.Ok? ==> FromBytes(r.value) == Sponge(perm, Words(payload))
  {
    var bytes := Canonicalize(payload);
    if bytes.Err? {
      return bytes;
    }
    DecodeEncodeWords(Words(payload));
    var fields := BytesToFieldElements(bytes.value);
    if fields.Err? || |fields.value| != EXPECTED_FIELD_ELEMENTS {
      return Err("Expected 307 field elements");
    }
    var hash, _ := PoseidonSponge(perm, fields.value);
    Pow256Values();
    r := BigintToBytesBE(hash, 32);
  }

  /** The list comprehension over slices of eight bytes. */
  method EdgeFieldElements(bytes: seq<Byte>) returns (elements: seq<Word>)
    requires |bytes| % 8 == 0
    ensures elements == DecodeWords(bytes)
  {
    hide BytesWord;
    elements := [];
    var n := |bytes| / 8;
    for k := 0 to n
      invariant elements == DecodeWords(bytes[..8 * k])
    {
      DecodeWordsSnoc(bytes[..8 * k], bytes[8 * k..8 * k + 8]);
      assert bytes[..8 * (k + 1)] == bytes[..8 * k] + bytes[8 * k..8 * k + 8];
      elements := elements + [BytesWord(bytes[8 * k..8 * k + 8])];
    }
    assert bytes[..8 * n] == bytes;
  }

  /** `compute_payload_hash`: the same 32 bytes, whenever every value is in range. */
  method EdgeComputePayloadHash(perm: Permutation, payload: Payload) returns (r: Result<seq<Byte>, string>)
    ensures r.Ok? <==> |payload.readings| == READINGS_PER_PAYLOAD && InRange(payload)
    ensures r.Ok? ==> r.value == ToBytes(Sponge(perm, Words(payload)), 32)
  {
    hide EncodeWords, DecodeWords, Words, InRange, Sponge, ToBytes;
    var bytes := EdgeCanonicalize(payload);
    if bytes.Err? {
      return bytes;
    }
    DecodeEncodeWords(Words(payload));
    var fieldElements := EdgeFieldElements(bytes.value);
    var hash := EdgePoseidonSponge(perm, fieldElements);
    r := Ok(ToBytes(hash, 32));
  }

  /**
   * The hash binds the payload: two in-range payloads with one hash are equal, or their words
   * are two different messages of 307 elements that the sponge itself maps to one digest.
   */
  lemma HashBindsPayload(perm: Permutation, p: Payload, q: Payload)
    requires |p.readings| == |q.readings| == READINGS_PER_PAYLOAD && InRange(p) && InRange(q)
    requires ToBytes(Sponge(perm, Words(p)), 32) == ToBytes(Sponge(perm, Words(q)), 32)
    ensures p == q
         || (Words(p) != Words(q) && Blocks(Words(p)) != Blocks(Words(q))
             && Sponge(perm, Words(p)) == Sponge(perm, Words(q)))
  {
    Pow256Values();
    FromToBytes(Sponge(perm, Words(p)), 32);
    FromToBytes(Sponge(perm, Words(q)), 32);
    CanonicalRoundTrip(p);
    CanonicalRoundTrip(q);
    if Blocks(Words(p)) == Blocks(Words(q)) {
      BlocksInjective(Words(p), Words(q));
    }
  }
}
