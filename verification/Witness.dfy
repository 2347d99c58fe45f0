/**
 * The inputs of the Noir circuit (aggregator/src/prover/witness.ts): payload fields, hash and
 * total energy as hexadecimal field elements beside the 307 canonical fields. The sum the
 * circuit forms of them is `FieldEnergy`.
 */
module Witness {
  import opened Wrappers
  import opened Bytes
  import opened Poseidon
  import opened Canonical
  import opened Text

  // ---------- Total energy ----------

  function Energy(rs: seq<Reading>): int {
    if rs == [] then 0 else Energy(rs[..|rs| - 1]) + rs[|rs| - 1].voltageMv * rs[|rs| - 1].currentMa
  }

  /** One reading contributes voltage times current, and readings add up. */
  lemma EnergyOfReading(voltageMv: int, currentMa: int, timestampMs: int)
    ensures Energy([Reading(voltageMv, currentMa, timestampMs)]) == voltageMv * currentMa
    ensures Energy([]) == 0
  {
    var rs := [Reading(voltageMv, currentMa, timestampMs)];
    assert rs[..0] == [];
  }

  lemma {:induction false} EnergyAddsUp(a: seq<Reading>, b: seq<Reading>)
    ensures Energy(a + b) == Energy(a) + Energy(b)
    decreases |b|
  {
    if b == [] {
      assert a + b == a;
    } else {
      EnergyAddsUp(a, b[..|b| - 1]);
      assert (a + b)[..|a + b| - 1] == a + b[..|b| - 1];
    }
  }

  /** `computeTotalEnergy`; the edge's `compute_total_energy_mwh` is the same loop. */
  method ComputeTotalEnergy(readings: seq<Reading>) returns (total: int)
    ensures total == Energy(readings)
  {
    total := 0;
    for k := 0 to |readings|
      invariant total == Energy(readings[..k])
    {
      assert readings[..k + 1][..k] == readings[..k];
      total := total + readings[k].voltageMv * readings[k].currentMa;
    }
    assert readings[..|readings|] == readings;
  }

  /** The circuit's sum over the unpacked fields, in the field. */
  function FieldEnergy(fields: seq<int>, n: nat): Field
    requires |fields| >= 7 + 3 * n
  {
    if n == 0 then 0
    else
      var product := (fields[7 + 3 * (n - 1)] * fields[8 + 3 * (n - 1)]) % BN254_FIELD_SIZE;
      (FieldEnergy(fields, n - 1) + product) % BN254_FIELD_SIZE
  }

  const TWO_128: nat := TWO_64 * TWO_64

  lemma MulBound(a: nat, b: nat, m: nat)
    requires a < m && b < m
    ensures 0 <= a * b < m * m
  {
    assert a * b <= a * m;
    assert a * m < m * m;
  }

  lemma ProductBound(a: Word, b: Word)
    ensures 0 <= a * b < TWO_128
  {
    MulBound(a, b, TWO_64);
  }

  /** Where the circuit looks for the factors of a reading's product. */
  lemma FactorFields(p: Payload, i: nat)
    requires InRange(p) && i < |p.readings|
    ensures Words(p)[7 + 3 * i] == p.readings[i].voltageMv
    ensures Words(p)[8 + 3 * i] == p.readings[i].currentMa
    ensures 0 <= p.readings[i].voltageMv * p.readings[i].currentMa < TWO_128
  {
    ReadingWordsAt(p.readings, i);
    assert ReadingInRange(p.readings[i]);
    ProductBound(p.readings[i].voltageMv, p.readings[i].currentMa);
  }

  lemma {:induction false} FieldEnergyIsEnergy(p: Payload, n: nat)
    requires InRange(p) && n <= |p.readings| <= 100
    ensures FieldEnergy(Words(p), n) == Energy(p.readings[..n])
    ensures 0 <= Energy(p.readings[..n]) <= n * TWO_128
  {
    hide InRange, Words;
    if n > 0 {
      var r, init := p.readings[n - 1], p.readings[..n - 1];
      FieldEnergyIsEnergy(p, n - 1);
      assert p.readings[..n][..n - 1] == init;
      FactorFields(p, n - 1);
      assert Energy(p.readings[..n]) == Energy(init) + r.voltageMv * r.currentMa;
      NoReduction(Energy(init), r.voltageMv * r.currentMa, n);
    }
  }

  lemma NoReduction(sum: int, product: int, n: nat)
    requires 0 < n <= 100 && 0 <= sum <= (n - 1) * TWO_128 && 0 <= product < TWO_128
    ensures (sum + product % BN254_FIELD_SIZE) % BN254_FIELD_SIZE == sum + product <= n * TWO_128
  {
    assert 100 * TWO_128 < BN254_FIELD_SIZE;
  }

  /**
   * The circuit's energy check is met: for every payload in range the sum of products over the
   * canonical fields, computed in the field, is the integer the aggregator computes. It stays
   * below 2^135, so nothing is reduced.
   */
  lemma CircuitEnergyAgrees(p: Payload)
    requires InRange(p) && |p.readings| == READINGS_PER_PAYLOAD
    ensures FieldEnergy(Words(p), 100) == Energy(p.readings)
    ensures 0 <= Energy(p.readings) < 128 * TWO_128 < BN254_FIELD_SIZE
  {
    FieldEnergyIsEnergy(p, 100);
    assert p.readings[..100] == p.readings;
  }

  // ---------- Field elements as text ----------

  /** Only negative values are brought into the field. */
  function Representative(v: int): nat {
    if v < 0 then
      ReduceNegative(v);
      JsRemainder(JsRemainder(v, BN254_FIELD_SIZE) + BN254_FIELD_SIZE, BN254_FIELD_SIZE)
    else v
  }

  lemma ReduceNegative(v: int)
    requires v < 0
    ensures JsRemainder(JsRemainder(v, BN254_FIELD_SIZE) + BN254_FIELD_SIZE, BN254_FIELD_SIZE) == v % BN254_FIELD_SIZE
  {
  }

  function ToFieldHex(v: int): string {
    "0x" + Numeral(Representative(v), 16)
  }

  predicate IsFieldHex(s: string) {
    |s| > 2 && s[..2] == "0x" && AllDigits(s[2..], 16)
  }

  function FieldHexValue(s: string): nat
    requires IsFieldHex(s)
  {
    NumeralValue(s[2..], 16)
  }

  /**
   * The text denotes the value modulo the field size; it is the reduced representative exactly
   * for values below the field size, since only negative values are reduced.
   */
  lemma FieldHexMeaning(v: int)
    ensures IsFieldHex(ToFieldHex(v))
    ensures FieldHexValue(ToFieldHex(v)) == if v < 0 then v % BN254_FIELD_SIZE else v
    ensures FieldHexValue(ToFieldHex(v)) < BN254_FIELD_SIZE <==> v < BN254_FIELD_SIZE
  {
    NumeralRoundTrip(Representative(v), 16);
    if v < 0 {
      ReduceNegative(v);
    }
    hide Numeral, NumeralValue, Representative, JsRemainder;
    assert ToFieldHex(v)[..2] == "0x" && ToFieldHex(v)[2..] == Numeral(Representative(v), 16);
  }

  lemma FieldHexExample()
    ensures ToFieldHex(31) == "0x1f" && ToFieldHex(0) == "0x0" && !IsFieldHex("0x") && !IsFieldHex("1f")
  {
    LastDigit(31, 16);
    LastDigit(1, 16);
    LastDigit(0, 16);
    var s := Numeral(31, 16);
    assert s == s[..|s| - 1] + [s[|s| - 1]] && s[..|s| - 1] == Numeral(1, 16);
  }

  /** Texts of values below the field size are equal exactly when the values are equal in the field. */
  lemma FieldHexInjective(a: int, b: int)
    requires a < BN254_FIELD_SIZE && b < BN254_FIELD_SIZE
    ensures ToFieldHex(a) == ToFieldHex(b) <==> a % BN254_FIELD_SIZE == b % BN254_FIELD_SIZE
  {
    FieldHexMeaning(a);
    FieldHexMeaning(b);
    SameRepresentative(a);
    SameRepresentative(b);
    hide Numeral, NumeralValue, Representative, JsRemainder;
  }

  lemma SameRepresentative(a: int)
    requires a < BN254_FIELD_SIZE
    ensures Representative(a) == a % BN254_FIELD_SIZE
  {
    if a < 0 {
      ReduceNegative(a);
    }
  }

  // ---------- The circuit inputs ----------

  datatype WitnessInputs = WitnessInputs(
    deviceId: string, sessionId: string, epochStartTs: string, latE7: string, lonE7: string,
    lightLevel: string, tamperFlag: string, payloadHash: string, totalEnergyMwh: string,
    canonicalPayload: seq<string>, signature: seq<Byte>, pubkeyX: seq<Byte>, pubkeyY: seq<Byte>)

  ghost predicate Denotes(s: string, v: int) {
    IsFieldHex(s) && FieldHexValue(s) == v
  }

  function MetadataTexts(w: WitnessInputs): seq<string> {
    [w.deviceId, w.sessionId, w.epochStartTs, w.latE7, w.lonE7, w.lightLevel, w.tamperFlag]
  }

  function MetadataOf(p: Payload): seq<string> {
    [ToFieldHex(p.deviceId), ToFieldHex(p.sessionId), ToFieldHex(p.epochStartTs), ToFieldHex(p.latE7),
     ToFieldHex(p.lonE7), ToFieldHex(p.lightLevel), ToFieldHex(p.tamperFlag)]
  }

  /** What every text of the prepared inputs denotes. */
  ghost predicate PreparedFrom(perm: Permutation, payload: Payload, w: WitnessInputs)
    requires |payload.readings| == 100
  {
    && MetadataTexts(w) == MetadataOf(payload)
    && Denotes(w.payloadHash, Sponge(perm, Words(payload)))
    && |w.canonicalPayload| == 307
    && (forall i :: 0 <= i < 307 ==> Denotes(w.canonicalPayload[i], Words(payload)[i]))
    && (InRange(payload) ==> Denotes(w.totalEnergyMwh, FieldEnergy(Words(payload), 100)))
  }

  lemma TextDenotes(v: nat)
    ensures Denotes(ToFieldHex(v), v)
  {
    FieldHexMeaning(v);
  }

  method FieldTexts(perm: Permutation, payload: Payload) returns (texts: seq<string>)
    requires |payload.readings| == 100
    ensures |texts| == 307
    ensures forall i :: 0 <= i < 307 ==> Denotes(texts[i], Words(payload)[i])
  {
    hide Denotes, ToFieldHex, EncodeWords, DecodeWords, Words;
    var canonicalBytes := Canonicalize(payload);
    var fields := BytesToFieldElements(canonicalBytes.value);
    DecodeEncodeWords(Words(payload));
    var ws := fields.value;
    texts := seq(|ws|, i requires 0 <= i < |ws| => ToFieldHex(ws[i]));
    forall i | 0 <= i < |ws|
      ensures Denotes(texts[i], ws[i])
    {
      TextDenotes(ws[i]);
    }
  }

  function Assemble(payload: Payload, payloadHash: int, totalEnergy: int, texts: seq<string>,
                    signature: seq<Byte>, pubkey: seq<Byte>): WitnessInputs
    requires |pubkey| == 64
  {
    WitnessInputs(
      ToFieldHex(payload.deviceId), ToFieldHex(payload.sessionId), ToFieldHex(payload.epochStartTs),
      ToFieldHex(payload.latE7), ToFieldHex(payload.lonE7), ToFieldHex(payload.lightLevel),
      ToFieldHex(payload.tamperFlag), ToFieldHex(payloadHash), ToFieldHex(totalEnergy),
      texts, signature, pubkey[..32], pubkey[32..])
  }

  lemma AssembledIsPrepared(perm: Permutation, payload: Payload, texts: seq<string>,
                            signature: seq<Byte>, pubkey: seq<Byte>)
    requires |pubkey| == 64 && |payload.readings| == 100 && |texts| == 307
    requires forall i :: 0 <= i < 307 ==> Denotes(texts[i], Words(payload)[i])
    ensures PreparedFrom(perm, payload,
              Assemble(payload, Sponge(perm, Words(payload)), Energy(payload.readings), texts, signature, pubkey))
  {
    TextDenotes(Sponge(perm, Words(payload)));
    hide Denotes, ToFieldHex, Words, FieldEnergy, Energy, Sponge, InRange;
    if InRange(payload) {
      CircuitEnergyAgrees(payload);
      TextDenotes(Energy(payload.readings));
    }
  }

  /**
   * Fails exactly on a signature or key that is not 64 bytes or a payload without 100 readings.
   * For a payload in range the energy text denotes what the circuit computes from the canonical
   * fields, and the hash text denotes the sponge digest of those same fields.
   */
  method PrepareWitnessInputs(perm: Permutation, payload: Payload, signature: seq<Byte>, pubkey: seq<Byte>)
    returns (r: Result<WitnessInputs, string>)
    ensures r.Ok? <==> |signature| == 64 && |pubkey| == 64 && |payload.readings| == 100
    ensures r.Ok? ==> PreparedFrom(perm, payload, r.value)
    ensures r.Ok? ==> r.value.signature == signature
    ensures r.Ok? ==> r.value.pubkeyX == pubkey[..32] && r.value.pubkeyY == pubkey[32..]
  {
    if |signature| != 64 {
      return Err("signature must be 64 bytes");
    }
    if |pubkey| != 64 {
      return Err("pubkey must be 64 bytes");
    }
    if |payload.readings| != 100 {
      return Err("payload must have exactly 100 readings");
    }
    hide Denotes, ToFieldHex, Words, FieldEnergy, Energy, Sponge, ToBytes, FromBytes, InRange, PreparedFrom;
    var hashBytes := ComputePayloadHash(perm, payload);
    var payloadHash := BytesToBigIntBE(hashBytes.value);
    var totalEnergy := ComputeTotalEnergy(payload.readings);
    var texts := FieldTexts(perm, payload);
    AssembledIsPrepared(perm, payload, texts, signature, pubkey);
    r := Ok(Assemble(payload, payloadHash, totalEnergy, texts, signature, pubkey));
  }

  lemma FieldAgreesWithWord(v: int)
    ensures IsU64(v) ==> ToFieldHex(v) == ToFieldHex(AsWord(v))
    ensures IsI64(v) ==> (ToFieldHex(v) == ToFieldHex(AsWord(v)) <==> v >= 0)
  {
    if IsI64(v) && v < 0 {
      FieldHexMeaning(v);
      FieldHexMeaning(AsWord(v));
      hide ToFieldHex, FieldHexValue;
      assert AsWord(v) == v + TWO_64;
      assert v % BN254_FIELD_SIZE == v + BN254_FIELD_SIZE;
    }
  }

  /**
   * The seven metadata inputs repeat the first seven canonical fields exactly when neither
   * coordinate is negative: a negative one is reduced modulo the field size in one place and
   * modulo 2^64 in the other.
   */
  lemma MetadataRepeatsCanonicalIff(p: Payload)
    requires InRange(p)
    ensures (forall i :: 0 <= i < 7 ==> MetadataOf(p)[i] == ToFieldHex(Words(p)[i]))
       <==> p.latE7 >= 0 && p.lonE7 >= 0
  {
    FieldAgreesWithWord(p.deviceId);
    FieldAgreesWithWord(p.sessionId);
    FieldAgreesWithWord(p.epochStartTs);
    FieldAgreesWithWord(p.latE7);
    FieldAgreesWithWord(p.lonE7);
    FieldAgreesWithWord(p.lightLevel);
    FieldAgreesWithWord(p.tamperFlag);
    hide ToFieldHex, AsWord, AllReadingWords;
    var m, ws := MetadataOf(p), MetadataWords(p);
    assert forall i :: 0 <= i < 7 ==> Words(p)[i] == ws[i];
    assert m[3] == ToFieldHex(ws[3]) <==> p.latE7 >= 0;
    assert m[4] == ToFieldHex(ws[4]) <==> p.lonE7 >= 0;
  }
}
