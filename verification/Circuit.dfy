/**
 * The Noir circuit (zk/circuits/v08/src/main.nr) run on the inputs that
 * aggregator/src/prover/witness.ts prepares. P-256 verification is an arbitrary predicate.
 */
module Circuit {
  import opened Wrappers
  import opened Bytes
  import opened Poseidon
  import opened Canonical
  import opened Witness

  /** Public key halves, signature and message bytes. */
  type EcdsaVerify = (seq<Byte>, seq<Byte>, seq<Byte>, seq<Byte>) -> bool

  type CanonicalFields = s: seq<Field> | |s| == 307 witness seq(307, _ => 0)

  datatype CircuitInputs = CircuitInputs(
    deviceId: Field, sessionId: Field, epochStartTs: Field, latE7: Field, lonE7: Field,
    lightLevel: Field, tamperFlag: Field, payloadHash: Field, totalEnergyMwh: Field,
    canonicalPayload: CanonicalFields, signature: seq<Byte>, pubkeyX: seq<Byte>, pubkeyY: seq<Byte>)

  function MetadataFields(w: CircuitInputs): (fields: seq<Field>)
    ensures |fields| == 7
  {
    [w.deviceId, w.sessionId, w.epochStartTs, w.latE7, w.lonE7, w.lightLevel, w.tamperFlag]
  }

  /** The checks of the circuit. */
  ghost predicate Satisfied(perm: Permutation, verify: EcdsaVerify, w: CircuitInputs) {
    && Sponge(perm, w.canonicalPayload) == w.payloadHash
    && MetadataFields(w) == w.canonicalPayload[..7]
    && verify(w.pubkeyX, w.pubkeyY, w.signature, ToBytes(w.payloadHash, 32))
    && FieldEnergy(w.canonicalPayload, 100) == w.totalEnergyMwh
  }

  lemma SevenFields(a: seq<Field>, b: seq<Field>)
    requires |a| == |b| == 7
    ensures a == b <==> a[0] == b[0] && a[1] == b[1] && a[2] == b[2] && a[3] == b[3]
                        && a[4] == b[4] && a[5] == b[5] && a[6] == b[6]
  {
  }

  /** The loop of the energy check. */
  method SumProducts(c: CanonicalFields) returns (total: Field)
    ensures total == FieldEnergy(c, 100)
  {
    total := 0;
    for i := 0 to 100
      invariant total == FieldEnergy(c, i)
    {
      var voltage, current := c[7 + i * 3], c[8 + i * 3];
      var product := (voltage * current) % BN254_FIELD_SIZE;
      total := (total + product) % BN254_FIELD_SIZE;
    }
  }

  /** `main`, executed: the assertions in order; execution fails at the first that does not hold. */
  method Execute(perm: Permutation, verify: EcdsaVerify, w: CircuitInputs) returns (ok: bool)
    ensures ok <==> Satisfied(perm, verify, w)
    ensures ok <==>
      && w.payloadHash == Sponge(perm, w.canonicalPayload)
      && w.canonicalPayload[0] == w.deviceId && w.canonicalPayload[1] == w.sessionId
      && w.canonicalPayload[2] == w.epochStartTs
      && w.canonicalPayload[3] == w.latE7 && w.canonicalPayload[4] == w.lonE7
      && w.canonicalPayload[5] == w.lightLevel && w.canonicalPayload[6] == w.tamperFlag
      && verify(w.pubkeyX, w.pubkeyY, w.signature, ToBytes(w.payloadHash, 32))
      && w.totalEnergyMwh == FieldEnergy(w.canonicalPayload, 100)
  {
    var computedHash, _ := PoseidonSponge(perm, w.canonicalPayload);
    var c := w.canonicalPayload;
    SevenFields(c[..7], MetadataFields(w));
    hide Sponge, ToBytes, FieldEnergy, Blocks;
    if computedHash != w.payloadHash {
      return false;
    }
    if c[0] != w.deviceId || c[1] != w.sessionId || c[2] != w.epochStartTs || c[3] != w.latE7
       || c[4] != w.lonE7 || c[5] != w.lightLevel || c[6] != w.tamperFlag {
      return false;
    }
    var valid := verify(w.pubkeyX, w.pubkeyY, w.signature, ToBytes(w.payloadHash, 32));
    if !valid {
      return false;
    }
    var total := SumProducts(c);
    return total == w.totalEnergyMwh;
  }

  /** A field element given as text; text of a number outside the field is refused. */
  function ReadField(s: string): Option<Field> {
    if IsFieldHex(s) && FieldHexValue(s) < BN254_FIELD_SIZE then Some(FieldHexValue(s)) else None
  }

  predicate Readable(w: WitnessInputs) {
    && ReadField(w.deviceId).Some? && ReadField(w.sessionId).Some? && ReadField(w.epochStartTs).Some?
    && ReadField(w.latE7).Some? && ReadField(w.lonE7).Some? && ReadField(w.lightLevel).Some?
    && ReadField(w.tamperFlag).Some? && ReadField(w.payloadHash).Some? && ReadField(w.totalEnergyMwh).Some?
    && |w.canonicalPayload| == 307
    && forall i :: 0 <= i < 307 ==> ReadField(w.canonicalPayload[i]).Some?
  }

  function ReadInputs(w: WitnessInputs): CircuitInputs
    requires Readable(w)
  {
    CircuitInputs(
      ReadField(w.deviceId).value, ReadField(w.sessionId).value, ReadField(w.epochStartTs).value,
      ReadField(w.latE7).value, ReadField(w.lonE7).value, ReadField(w.lightLevel).value,
      ReadField(w.tamperFlag).value, ReadField(w.payloadHash).value, ReadField(w.totalEnergyMwh).value,
      seq(307, i requires 0 <= i < 307 => ReadField(w.canonicalPayload[i]).value),
      w.signature, w.pubkeyX, w.pubkeyY)
  }

  lemma ReadDenoted(s: string, v: nat)
    requires Denotes(s, v) && v < BN254_FIELD_SIZE
    ensures ReadField(s) == Some(v)
  {
  }

  lemma ReadMetadatum(v: int)
    ensures IsU64(v) ==> ReadField(ToFieldHex(v)) == Some(AsWord(v))
    ensures IsI64(v) ==> ReadField(ToFieldHex(v)) == Some(v % BN254_FIELD_SIZE)
    ensures IsI64(v) ==> (v % BN254_FIELD_SIZE == AsWord(v) <==> v >= 0)
  {
    FieldHexMeaning(v);
    hide ToFieldHex, FieldHexValue;
  }

  lemma MetadataRead(payload: Payload)
    requires InRange(payload)
    ensures forall i :: 0 <= i < 7 ==> ReadField(MetadataOf(payload)[i]).Some?
    ensures (forall i :: 0 <= i < 7 ==> ReadField(MetadataOf(payload)[i]) == Some(MetadataWords(payload)[i]))
       <==> payload.latE7 >= 0 && payload.lonE7 >= 0
  {
    ReadMetadatum(payload.deviceId);
    ReadMetadatum(payload.sessionId);
    ReadMetadatum(payload.epochStartTs);
    ReadMetadatum(payload.latE7);
    ReadMetadatum(payload.lonE7);
    ReadMetadatum(payload.lightLevel);
    ReadMetadatum(payload.tamperFlag);
    hide ToFieldHex, ReadField, AsWord;
    var m, ws := MetadataOf(payload), MetadataWords(payload);
    assert ReadField(m[3]) == Some(ws[3]) <==> payload.latE7 >= 0;
    assert ReadField(m[4]) == Some(ws[4]) <==> payload.lonE7 >= 0;
  }

  lemma CanonicalRead(payload: Payload, texts: seq<string>)
    requires |payload.readings| == 100 && |texts| == 307
    requires forall i :: 0 <= i < 307 ==> Denotes(texts[i], Words(payload)[i])
    ensures forall i :: 0 <= i < 307 ==> ReadField(texts[i]) == Some(Words(payload)[i])
  {
    hide Denotes, ReadField, Words;
    forall i | 0 <= i < 307
      ensures ReadField(texts[i]) == Some(Words(payload)[i])
    {
      ReadDenoted(texts[i], Words(payload)[i]);
    }
  }

  lemma MetadataTextsAre(w: WitnessInputs, m: seq<string>)
    requires MetadataTexts(w) == m
    ensures |m| == 7
    ensures m[0] == w.deviceId && m[1] == w.sessionId && m[2] == w.epochStartTs && m[3] == w.latE7
         && m[4] == w.lonE7 && m[5] == w.lightLevel && m[6] == w.tamperFlag
  {
  }

  lemma PreparedIsReadable(perm: Permutation, payload: Payload, w: WitnessInputs)
    requires InRange(payload) && |payload.readings| == 100 && PreparedFrom(perm, payload, w)
    ensures Readable(w)
    ensures ReadInputs(w).payloadHash == Sponge(perm, Words(payload))
    ensures ReadInputs(w).totalEnergyMwh == FieldEnergy(Words(payload), 100)
    ensures ReadInputs(w).canonicalPayload == Words(payload)
  {
    var ws, m := Words(payload), MetadataOf(payload);
    MetadataRead(payload);
    CanonicalRead(payload, w.canonicalPayload);
    ReadDenoted(w.payloadHash, Sponge(perm, ws));
    ReadDenoted(w.totalEnergyMwh, FieldEnergy(ws, 100));
    MetadataTextsAre(w, m);
    hide ReadField, Sponge, FieldEnergy, Words, MetadataOf, MetadataTexts, InRange, PreparedFrom;
  }

  lemma MetadataFieldsRead(w: WitnessInputs)
    requires Readable(w)
    ensures forall i :: 0 <= i < 7 ==> ReadField(MetadataTexts(w)[i]) == Some(MetadataFields(ReadInputs(w))[i])
  {
    hide ReadField;
    MetadataTextsAre(w, MetadataTexts(w));
  }

  /** Read back, the metadata is that of the canonical fields exactly if no coordinate is negative. */
  lemma MetadataAgreesIff(perm: Permutation, payload: Payload, w: WitnessInputs)
    requires InRange(payload) && |payload.readings| == 100
    requires PreparedFrom(perm, payload, w) && Readable(w)
    ensures MetadataFields(ReadInputs(w)) == Words(payload)[..7] <==> payload.latE7 >= 0 && payload.lonE7 >= 0
  {
    var ws, fields := MetadataWords(payload), MetadataFields(ReadInputs(w));
    assert Words(payload)[..7] == ws;
    MetadataRead(payload);
    MetadataFieldsRead(w);
    hide ReadField, ReadInputs, Words, MetadataWords, MetadataOf, MetadataTexts, MetadataFields, InRange;
    assert MetadataTexts(w) == MetadataOf(payload);
    if fields != ws {
      var i :| 0 <= i < 7 && fields[i] != ws[i];
      assert ReadField(MetadataOf(payload)[i]) == Some(fields[i]);
    }
  }

  /**
   * `generateWitness`: the circuit accepts what is prepared for a payload in range exactly if no
   * coordinate is negative and the signature verifies over the payload hash. Hash and energy always
   * check out; a southern latitude or a western longitude never does.
   */
  method GenerateWitness(perm: Permutation, verify: EcdsaVerify, payload: Payload,
                         signature: seq<Byte>, pubkey: seq<Byte>)
    returns (ok: bool)
    requires InRange(payload)
    ensures ok <==>
      && |signature| == 64 && |pubkey| == 64 && |payload.readings| == 100
      && payload.latE7 >= 0 && payload.lonE7 >= 0
      && verify(pubkey[..32], pubkey[32..], signature, ToBytes(Sponge(perm, Words(payload)), 32))
  {
    var prepared := PrepareWitnessInputs(perm, payload, signature, pubkey);
    hide Words, Sponge, ToBytes, FieldEnergy, PreparedFrom, Readable, ReadInputs;
    if prepared.Err? {
      return false;
    }
    PreparedIsReadable(perm, payload, prepared.value);
    MetadataAgreesIff(perm, payload, prepared.value);
    SignatureParts(prepared.value);
    ok := Execute(perm, verify, ReadInputs(prepared.value));
  }

  lemma SignatureParts(w: WitnessInputs)
    requires Readable(w)
    ensures var r := ReadInputs(w);
            r.signature == w.signature && r.pubkeyX == w.pubkeyX && r.pubkeyY == w.pubkeyY
  {
  }
}
