/**
 * EIP-712 digests of the public inputs (edge/hal/eip712.py). Keccak-256 is an arbitrary
 * function to 32 bytes. Encoders follow the sections "Definition of encodeData" and
 * "Definition of domainSeparator" of EIP-712: one 32-byte slot per value.
 */
module Eip712 {
  import opened Wrappers
  import opened Bytes
  import opened Text

  type Bytes32 = bs: seq<Byte> | |bs| == 32 witness ToBytes(0, 32)

  type Keccak = seq<Byte> -> Bytes32

  datatype PublicInputs = PublicInputs(
    deviceId: int, sessionId: int, epochStartTs: int, latE7: int, lonE7: int,
    lightLevel: int, tamperFlag: int, payloadHash: seq<Byte>, totalEnergyMWh: int)

  const TWO_255: nat := 0x8000_0000_0000_0000_0000_0000_0000_0000_0000_0000_0000_0000_0000_0000_0000_0000

  // ---------- One slot ----------

  predicate IsU256(v: int) {
    0 <= v < TWO_256
  }

  predicate IsI256(v: int) {
    -(TWO_255 as int) <= v < TWO_255
  }

  /** `int.to_bytes(32, "big")`: raises on negative values and on overflow. */
  function EncodeUint(v: int): Result<Bytes32, string> {
    if v < 0 then Err("ValueError")
    else if v >= TWO_256 then Err("OverflowError")
    else Ok(ToBytes(v, 32))
  }

  /** Two's complement, sign-extended to 256 bits. */
  function EncodeInt(v: int): Result<Bytes32, string> {
    if !IsI256(v) then Err("OverflowError") else Ok(ToBytes(v % TWO_256, 32))
  }

  function EncodeBytes32(v: seq<Byte>): Result<Bytes32, string> {
    if |v| != 32 then Err("ValueError") else Ok(v)
  }

  // ---------- The address slot ----------

  function Lower(s: string): (t: string)
    ensures |t| == |s|
  {
    seq(|s|, i requires 0 <= i < |s| => if 'A' <= s[i] <= 'Z' then (s[i] as int + 32) as char else s[i])
  }

  /** The address without its optional prefix, in lower case. */
  function AddressDigits(address: string): string {
    var s := Lower(address);
    if |s| >= 2 && s[..2] == "0x" then s[2..] else s
  }

  predicate IsSpace(c: char) {
    c == ' ' || (9 as char <= c <= 13 as char)
  }

  /** Space, tab, line feed, vertical tab, form feed and carriage return. */
  lemma SpaceCodes(c: char)
    ensures IsSpace(c) <==> c as int in {32, 9, 10, 11, 12, 13}
  {
  }

  /** Python's `bytes.fromhex` on lower-case text: pairs of digits, white space between pairs skipped. */
  function FromHex(s: string): Result<seq<Byte>, string> {
    if s == [] then Ok([])
    else if IsSpace(s[0]) then FromHex(s[1..])
    else if |s| >= 2 && IsDigit(s[0], 16) && IsDigit(s[1], 16) then
      match FromHex(s[2..])
      case Ok(rest) => Ok([PairValue(s[0], s[1])] + rest)
      case Err(e) => Err(e)
    else Err("non-hexadecimal number found in fromhex()")
  }

  function EncodeAddress(address: string): Result<seq<Byte>, string> {
    var s := AddressDigits(address);
    if |s| != 40 then Err("address must be 20 bytes (40 hex chars)")
    else
      match FromHex(s)
      case Ok(bytes) => Ok(ToBytes(0, 12) + bytes)
      case Err(e) => Err(e)
  }

  predicate HasSpace(s: string) {
    exists i :: 0 <= i < |s| && IsSpace(s[i])
  }

  lemma {:induction false} FromHexLength(s: string)
    requires FromHex(s).Ok?
    ensures 2 * |FromHex(s).value| <= |s|
    ensures 2 * |FromHex(s).value| == |s| <==> !HasSpace(s)
  {
    if s != [] {
      if IsSpace(s[0]) {
        FromHexLength(s[1..]);
      } else {
        FromHexLength(s[2..]);
        assert !IsSpace(s[1]);
        assert HasSpace(s) <==> HasSpace(s[2..]) by {
          if HasSpace(s) {
            var i :| 0 <= i < |s| && IsSpace(s[i]);
            assert s[2..][i - 2] == s[i];
          }
          if HasSpace(s[2..]) {
            var i :| 0 <= i < |s[2..]| && IsSpace(s[2..][i]);
            assert s[i + 2] == s[2..][i];
          }
        }
      }
    }
  }

  lemma {:induction false} FromHexSucceeds(s: string)
    requires |s| % 2 == 0
    ensures IsLowerHex(s) <==> FromHex(s).Ok? && !HasSpace(s)
  {
    if s != [] {
      FromHexSucceeds(s[2..]);
      assert forall i :: 0 <= i < |s[2..]| ==> s[2..][i] == s[i + 2];
      assert forall i :: 2 <= i < |s| ==> s[i] == s[2..][i - 2];
      assert HasSpace(s) <==> IsSpace(s[0]) || IsSpace(s[1]) || HasSpace(s[2..]);
    }
  }

  /**
   * The promised 32-byte slot comes out exactly when the text is 40 hexadecimal digits. White
   * space counts towards the 40 characters but not towards the bytes, so text with spaces in it
   * that is not refused gives a shorter slot.
   */
  lemma AddressSlotIff(address: string)
    ensures var r, s := EncodeAddress(address), AddressDigits(address);
            && ((r.Ok? && |r.value| == 32) <==> |s| == 40 && IsLowerHex(s))
            && (r.Ok? ==> (|r.value| < 32 <==> HasSpace(s)))
  {
    var s := AddressDigits(address);
    if |s| == 40 {
      FromHexSucceeds(s);
      if FromHex(s).Ok? {
        FromHexLength(s);
      }
    }
  }

  function WithoutSpace(s: string): string {
    if s == [] then [] else (if IsSpace(s[0]) then [] else [s[0]]) + WithoutSpace(s[1..])
  }

  lemma HexCons(b: Byte, rest: seq<Byte>)
    ensures Hex([b] + rest) == [HighDigit(b), LowDigit(b)] + Hex(rest)
  {
    hide HighDigit, LowDigit;
    var s := Hex([b] + rest);
    forall i | 0 <= i < |s|
      ensures s[i] == ([HighDigit(b), LowDigit(b)] + Hex(rest))[i]
    {
      assert i / 2 > 0 ==> ([b] + rest)[i / 2] == rest[(i - 2) / 2];
    }
  }

  lemma DigitOfValue(c: char)
    requires IsDigit(c, 16)
    ensures DigitChar(DigitValue(c)) == c && !IsSpace(c)
  {
  }

  lemma DigitsOfPair(hi: char, lo: char)
    requires IsDigit(hi, 16) && IsDigit(lo, 16)
    ensures HighDigit(PairValue(hi, lo)) == hi && LowDigit(PairValue(hi, lo)) == lo
    ensures !IsSpace(hi) && !IsSpace(lo)
  {
    DigitOfValue(hi);
    DigitOfValue(lo);
    hide DigitChar, DigitValue, IsDigit, IsSpace;
    var h, l := DigitValue(hi), DigitValue(lo);
    assert (16 * h + l) / 16 == h && (16 * h + l) % 16 == l;
  }

  lemma PairWithoutSpace(s: string)
    requires |s| >= 2 && !IsSpace(s[0]) && !IsSpace(s[1])
    ensures WithoutSpace(s) == [s[0], s[1]] + WithoutSpace(s[2..])
  {
    assert s[1..][1..] == s[2..];
  }

  lemma FromHexPair(s: string)
    requires |s| >= 2 && IsDigit(s[0], 16) && IsDigit(s[1], 16)
    ensures FromHex(s).Ok? <==> FromHex(s[2..]).Ok?
    ensures FromHex(s).Ok? ==> FromHex(s).value == [PairValue(s[0], s[1])] + FromHex(s[2..]).value
  {
    DigitsOfPair(s[0], s[1]);
  }

  /** The bytes read from accepted text are those its digits spell, white space left out. */
  lemma {:induction false} FromHexReadsDigits(s: string)
    requires FromHex(s).Ok?
    ensures Hex(FromHex(s).value) == WithoutSpace(s)
  {
    if s == [] {
    } else if IsSpace(s[0]) {
      FromHexReadsDigits(s[1..]);
    } else {
      FromHexPair(s);
      FromHexReadsDigits(s[2..]);
      DigitsOfPair(s[0], s[1]);
      HexCons(PairValue(s[0], s[1]), FromHex(s[2..]).value);
      PairWithoutSpace(s);
      hide Hex, FromHex, WithoutSpace, HighDigit, LowDigit, PairValue;
    }
  }

  lemma HexInjective(a: seq<Byte>, b: seq<Byte>)
    ensures Hex(a) == Hex(b) <==> a == b
  {
    HexRoundTrip(a);
    HexRoundTrip(b);
  }

  /** Two accepted addresses share a slot exactly when their digits agree, white space left out. */
  lemma SameAddressSlotIff(a: string, b: string)
    requires EncodeAddress(a).Ok? && EncodeAddress(b).Ok?
    ensures EncodeAddress(a) == EncodeAddress(b)
       <==> WithoutSpace(AddressDigits(a)) == WithoutSpace(AddressDigits(b))
  {
    FromHexReadsDigits(AddressDigits(a));
    FromHexReadsDigits(AddressDigits(b));
    hide AddressDigits, FromHex, Hex, WithoutSpace;
    var x, y := EncodeAddress(a).value, EncodeAddress(b).value;
    HexInjective(x[12..], y[12..]);
    assert x == x[..12] + x[12..] && y == y[..12] + y[12..];
    assert x[..12] == ToBytes(0, 12) && y[..12] == ToBytes(0, 12);
  }

  /** On digits only, Python's and the server's hexadecimal readers agree. */
  lemma {:induction false} FromHexAfterDigits(digits: string, rest: string)
    requires IsLowerHex(digits) && |digits| % 2 == 0 && FromHex(rest).Ok?
    ensures FromHex(digits + rest) == Ok(HexBytes(digits) + FromHex(rest).value)
  {
    if digits == [] {
      assert digits + rest == rest;
      assert HexBytes(digits) + FromHex(rest).value == FromHex(rest).value;
    } else {
      var s := digits + rest;
      FromHexAfterDigits(digits[2..], rest);
      assert s[2..] == digits[2..] + rest;
      FromHexPair(s);
      var first := [PairValue(digits[0], digits[1])];
      assert HexBytes(digits) == first + HexBytes(digits[2..]);
      hide FromHex, HexBytes, PairValue;
      var middle, last := HexBytes(digits[2..]), FromHex(rest).value;
      assert first + (middle + last) == first + middle + last;
    }
  }

  lemma LowerOfDigits(s: string)
    requires forall i :: 0 <= i < |s| ==> IsDigit(s[i], 16) || s[i] == ' '
    ensures AddressDigits(s) == s
  {
    assert Lower(s) == s;
    assert |s| >= 2 ==> s[..2][1] == s[1];
  }

  /**
   * The address is not bound by its slot: for any 38 digits, two spaces before them and two spaces
   * behind them are different addresses with one slot, which is one byte short.
   */
  lemma SpacedAddressesClash(digits: string)
    requires |digits| == 38 && IsLowerHex(digits)
    ensures AddressDigits("  " + digits) != AddressDigits(digits + "  ")
    ensures EncodeAddress("  " + digits) == EncodeAddress(digits + "  ")
         == Ok(ToBytes(0, 12) + HexBytes(digits))
  {
    var before, behind := "  " + digits, digits + "  ";
    LowerOfDigits(before);
    LowerOfDigits(behind);
    assert behind[0] == digits[0] && IsDigit(digits[0], 16) && before[0] == ' ';
    FromHexSpaces(digits);
    FromHexAfterDigits(digits, "  ");
    FromHexAfterDigits(digits, "");
    assert digits + "" == digits;
    hide FromHex, AddressDigits, HexBytes, ToBytes;
    assert HexBytes(digits) + [] == HexBytes(digits);
  }

  lemma FromHexSpaces(s: string)
    ensures FromHex("  " + s) == FromHex(s)
    ensures FromHex("  ") == FromHex("") == Ok([])
  {
    var two, one := "  " + s, " " + s;
    assert two[1..] == one && one[1..] == s;
    assert "  "[1..] == " " && " "[1..] == "";
  }

  // ---------- Pre-images ----------

  type Slot = Result<seq<Byte>, string>

  /** Concatenation that raises where one of its parts does. */
  function Concat(slots: seq<Slot>): Slot {
    if slots == [] then Ok([])
    else
      match slots[|slots| - 1]
      case Err(e) => Err(e)
      case Ok(last) =>
        match Concat(slots[..|slots| - 1])
        case Err(e) => Err(e)
        case Ok(init) => Ok(init + last)
  }

  ghost predicate Full(slots: seq<Slot>) {
    forall i :: 0 <= i < |slots| ==> slots[i].Ok? && |slots[i].value| == 32
  }

  lemma {:induction false} ConcatFull(slots: seq<Slot>)
    ensures Concat(slots).Ok? <==> forall i :: 0 <= i < |slots| ==> slots[i].Ok?
    ensures Full(slots) ==> |Concat(slots).value| == 32 * |slots|
  {
    if slots != [] {
      ConcatFull(slots[..|slots| - 1]);
    }
  }

  function Ascii(s: string): (bs: seq<Byte>) {
    seq(|s|, i requires 0 <= i < |s| => (s[i] as int) % 256)
  }

  const DOMAIN_TYPE: string := "EIP712Domain(string name,string version,uint256 chainId,address verifyingContract)"
  const ENERGY_PROOF_TYPE: string :=
    "EnergyProof(uint64 deviceId,uint64 sessionId,uint64 epochStartTs,"
    + "int64 lat_e7,int64 lon_e7,uint64 lightLevel,uint64 tamperFlag,"
    + "bytes32 payloadHash,uint64 totalEnergyMWh)"
  const DOMAIN_NAME: string := "InfraVeritas Energy"
  const DOMAIN_VERSION: string := "1"

  function StructSlots(k: Keccak, p: PublicInputs): (slots: seq<Slot>)
    ensures |slots| == 10
  {
    [EncodeBytes32(k(Ascii(ENERGY_PROOF_TYPE))),
     EncodeUint(p.deviceId), EncodeUint(p.sessionId), EncodeUint(p.epochStartTs),
     EncodeInt(p.latE7), EncodeInt(p.lonE7),
     EncodeUint(p.lightLevel), EncodeUint(p.tamperFlag),
     EncodeBytes32(p.payloadHash), EncodeUint(p.totalEnergyMWh)]
  }

  function DomainSlots(k: Keccak, chainId: int, contractAddress: string): (slots: seq<Slot>)
    ensures |slots| == 5
  {
    [EncodeBytes32(k(Ascii(DOMAIN_TYPE))), EncodeBytes32(k(Ascii(DOMAIN_NAME))),
     EncodeBytes32(k(Ascii(DOMAIN_VERSION))), EncodeUint(chainId), EncodeAddress(contractAddress)]
  }

  /** What the encoders accept: every integer within 256 bits, a 32-byte hash. */
  predicate Encodable(p: PublicInputs) {
    && IsU256(p.deviceId) && IsU256(p.sessionId) && IsU256(p.epochStartTs)
    && IsI256(p.latE7) && IsI256(p.lonE7)
    && IsU256(p.lightLevel) && IsU256(p.tamperFlag)
    && |p.payloadHash| == 32 && IsU256(p.totalEnergyMWh)
  }

  predicate IsAddress(address: string) {
    |AddressDigits(address)| == 40 && IsLowerHex(AddressDigits(address))
  }

  /** The struct pre-image exists exactly for encodable inputs; it is 320 bytes and tells all nine fields. */
  lemma StructPreimage(k: Keccak, p: PublicInputs)
    ensures Concat(StructSlots(k, p)).Ok? <==> Encodable(p)
    ensures Encodable(p) ==> Full(StructSlots(k, p)) && |Concat(StructSlots(k, p)).value| == 320
  {
    var slots := StructSlots(k, p);
    ConcatFull(slots);
    hide Concat, ToBytes, Ascii;
    if Concat(slots).Ok? {
      assert slots[1].Ok? && slots[2].Ok? && slots[3].Ok? && slots[4].Ok? && slots[5].Ok?;
      assert slots[6].Ok? && slots[7].Ok? && slots[8].Ok? && slots[9].Ok?;
    }
  }

  /** The i-th 32-byte slot of a pre-image. */
  function SlotAt(preimage: seq<Byte>, i: nat): Bytes32
    requires 32 * i + 32 <= |preimage|
  {
    preimage[32 * i..32 * i + 32]
  }

  function SignedValue(v: nat): int {
    if v < TWO_255 then v else v - TWO_256
  }

  /** A reader of struct pre-images: the type hash, then the members in the order of the type string. */
  function DecodeStruct(preimage: seq<Byte>): PublicInputs
    requires |preimage| == 320
  {
    PublicInputs(
      FromBytes(SlotAt(preimage, 1)), FromBytes(SlotAt(preimage, 2)), FromBytes(SlotAt(preimage, 3)),
      SignedValue(FromBytes(SlotAt(preimage, 4))), SignedValue(FromBytes(SlotAt(preimage, 5))),
      FromBytes(SlotAt(preimage, 6)), FromBytes(SlotAt(preimage, 7)),
      SlotAt(preimage, 8), FromBytes(SlotAt(preimage, 9)))
  }

  lemma {:induction false} ConcatSlotAt(slots: seq<Slot>, i: nat)
    requires Full(slots) && i < |slots|
    ensures Concat(slots).Ok? && |Concat(slots).value| == 32 * |slots|
    ensures SlotAt(Concat(slots).value, i) == slots[i].value
  {
    var n := |slots| - 1;
    ConcatFull(slots);
    ConcatFull(slots[..n]);
    if i < n {
      ConcatSlotAt(slots[..n], i);
      assert SlotAt(Concat(slots).value, i) == SlotAt(Concat(slots[..n]).value, i);
    }
  }

  lemma UintSlotValue(v: int)
    requires IsU256(v)
    ensures EncodeUint(v).Ok? && FromBytes(EncodeUint(v).value) == v
  {
    Pow256Values();
    FromToBytes(v, 32);
  }

  lemma IntSlotValue(v: int)
    requires IsI256(v)
    ensures EncodeInt(v).Ok? && SignedValue(FromBytes(EncodeInt(v).value)) == v
  {
    Pow256Values();
    FromToBytes(v % TWO_256, 32);
  }

  /** Reading a struct pre-image gives back all nine fields, signs included. */
  lemma StructRoundTrip(k: Keccak, p: PublicInputs)
    requires Encodable(p)
    ensures Concat(StructSlots(k, p)).Ok? && |Concat(StructSlots(k, p)).value| == 320
    ensures DecodeStruct(Concat(StructSlots(k, p)).value) == p
  {
    var slots := StructSlots(k, p);
    StructPreimage(k, p);
    forall i | 0 <= i < 10
      ensures SlotAt(Concat(slots).value, i) == slots[i].value
    {
      ConcatSlotAt(slots, i);
    }
    UintSlotValue(p.deviceId);
    UintSlotValue(p.sessionId);
    UintSlotValue(p.epochStartTs);
    IntSlotValue(p.latE7);
    IntSlotValue(p.lonE7);
    UintSlotValue(p.lightLevel);
    UintSlotValue(p.tamperFlag);
    UintSlotValue(p.totalEnergyMWh);
    hide Concat, ToBytes, FromBytes, SlotAt, SignedValue, EncodeUint, EncodeInt;
    var pre := Concat(slots).value;
    assert SlotAt(pre, 1) == slots[1].value && SlotAt(pre, 2) == slots[2].value && SlotAt(pre, 3) == slots[3].value;
    assert SlotAt(pre, 4) == slots[4].value && SlotAt(pre, 5) == slots[5].value && SlotAt(pre, 6) == slots[6].value;
    assert SlotAt(pre, 7) == slots[7].value && SlotAt(pre, 8) == slots[8].value && SlotAt(pre, 9) == slots[9].value;
  }

  /** The domain pre-image is 160 bytes exactly when the chain id fits 256 bits and the address is 40 digits. */
  lemma DomainPreimage(k: Keccak, chainId: int, contractAddress: string)
    ensures var pre := Concat(DomainSlots(k, chainId, contractAddress));
            (pre.Ok? && |pre.value| == 160) <==> IsU256(chainId) && IsAddress(contractAddress)
    ensures IsU256(chainId) && IsAddress(contractAddress) ==> Full(DomainSlots(k, chainId, contractAddress))
  {
    hide Concat, ToBytes, Ascii, EncodeAddress, AddressDigits, IsLowerHex;
    var slots := DomainSlots(k, chainId, contractAddress);
    ConcatFull(slots);
    ConcatFull(slots[..4]);
    AddressSlotIff(contractAddress);
    if Concat(slots).Ok? {
      assert slots[3].Ok? && slots[4].Ok?;
      assert Full(slots[..4]);
      ConcatSnoc(slots);
    }
  }

  lemma ConcatSnoc(slots: seq<Slot>)
    requires slots != [] && Concat(slots).Ok?
    ensures Concat(slots[..|slots| - 1]).Ok? && slots[|slots| - 1].Ok?
    ensures |Concat(slots).value| == |Concat(slots[..|slots| - 1]).value| + |slots[|slots| - 1].value|
  {
  }

  /**
   * A domain pre-image exists exactly if the chain id fits and the address is accepted. The chain
   * id is its fourth slot and the address all that follows, so even a short address slot shifts
   * nothing before it.
   */
  lemma DomainRoundTrip(k: Keccak, chainId: int, contractAddress: string)
    ensures var r := Concat(DomainSlots(k, chainId, contractAddress));
            && (r.Ok? <==> IsU256(chainId) && EncodeAddress(contractAddress).Ok?)
            && (r.Ok? ==>
                  && |r.value| >= 128
                  && FromBytes(SlotAt(r.value, 3)) == chainId
                  && r.value[128..] == EncodeAddress(contractAddress).value)
  {
    var slots := DomainSlots(k, chainId, contractAddress);
    ConcatFull(slots);
    ConcatFull(slots[..4]);
    hide Concat, ToBytes, Ascii, EncodeAddress, AddressDigits, IsLowerHex;
    if IsU256(chainId) && EncodeAddress(contractAddress).Ok? {
      assert Full(slots[..4]);
      ConcatSlotAt(slots[..4], 3);
      UintSlotValue(chainId);
      ConcatIsSplit(slots);
      var pre, front := Concat(slots).value, Concat(slots[..4]).value;
      assert pre[96..128] == front[96..128];
    }
    assert Concat(slots).Ok? ==> slots[3].Ok? && slots[4].Ok?;
  }

  lemma ConcatIsSplit(slots: seq<Slot>)
    requires slots != [] && Concat(slots).Ok?
    ensures Concat(slots[..|slots| - 1]).Ok? && slots[|slots| - 1].Ok?
    ensures Concat(slots).value == Concat(slots[..|slots| - 1]).value + slots[|slots| - 1].value
  {
  }

  lemma {:induction false} NoSpaceInDigits(s: string)
    requires IsLowerHex(s)
    ensures WithoutSpace(s) == s
  {
    if s != [] {
      assert IsDigit(s[0], 16);
      NoSpaceInDigits(s[1..]);
    }
  }

  /** An address of 40 digits can be read off its pre-image, up to letter case and prefix. */
  lemma DomainTellsAddress(k: Keccak, chainId: int, contractAddress: string)
    requires IsU256(chainId) && IsAddress(contractAddress)
    ensures var r := Concat(DomainSlots(k, chainId, contractAddress));
            r.Ok? && |r.value| == 160 && Hex(SlotAt(r.value, 4)[12..]) == AddressDigits(contractAddress)
  {
    DomainPreimage(k, chainId, contractAddress);
    DomainRoundTrip(k, chainId, contractAddress);
    AddressSlotIff(contractAddress);
    var digits, r := AddressDigits(contractAddress), Concat(DomainSlots(k, chainId, contractAddress));
    FromHexReadsDigits(digits);
    NoSpaceInDigits(digits);
    hide Concat, DomainSlots, FromHex, Hex, AddressDigits, WithoutSpace;
    assert SlotAt(r.value, 4) == r.value[128..];
  }

  // ---------- The digest ----------

  function HashConcat(k: Keccak, slots: seq<Slot>): Result<Bytes32, string> {
    match Concat(slots)
    case Err(e) => Err(e)
    case Ok(preimage) => Ok(k(preimage))
  }

  function DigestPreimage(domainSeparator: Bytes32, structHash: Bytes32): (bs: seq<Byte>)
    ensures |bs| == 66
  {
    [0x19, 0x01] + domainSeparator + structHash
  }

  function Digest(k: Keccak, p: PublicInputs, chainId: int, contractAddress: string): Result<Bytes32, string> {
    match HashConcat(k, DomainSlots(k, chainId, contractAddress))
    case Err(e) => Err(e)
    case Ok(domainSeparator) =>
      match HashConcat(k, StructSlots(k, p))
      case Err(e) => Err(e)
      case Ok(structHash) => Ok(k(DigestPreimage(domainSeparator, structHash)))
  }

  ghost predicate Collide(k: Keccak, x: seq<Byte>, y: seq<Byte>) {
    x != y && k(x) == k(y)
  }

  /** The pre-images of a digest: domain, struct, and the two hashes behind the prefix. */
  ghost function Preimages(k: Keccak, p: PublicInputs, chainId: int, contractAddress: string): seq<seq<Byte>>
    requires Digest(k, p, chainId, contractAddress).Ok?
  {
    var domain, struct := Concat(DomainSlots(k, chainId, contractAddress)).value, Concat(StructSlots(k, p)).value;
    [domain, struct, DigestPreimage(k(domain), k(struct))]
  }

  ghost predicate SomeCollide(k: Keccak, xs: seq<seq<Byte>>, ys: seq<seq<Byte>>)
    requires |xs| == |ys|
  {
    exists i :: 0 <= i < |xs| && Collide(k, xs[i], ys[i])
  }

  lemma DigestPreimageParts(d: Bytes32, h: Bytes32, d': Bytes32, h': Bytes32)
    ensures DigestPreimage(d, h) == DigestPreimage(d', h') <==> d == d' && h == h'
  {
    var x, y := DigestPreimage(d, h), DigestPreimage(d', h');
    assert x[2..34] == d && x[34..] == h && y[2..34] == d' && y[34..] == h';
  }

  /**
   * A digest binds everything it is made of: two equal digests come from the same nine fields, the
   * same chain id and addresses whose digits agree, white space left out, or a pair of pre-images
   * at hand is a keccak collision. Conversely such inputs do share their digest.
   */
  lemma DigestBinds(k: Keccak, p: PublicInputs, chainA: int, addressA: string,
                    q: PublicInputs, chainB: int, addressB: string)
    requires Digest(k, p, chainA, addressA).Ok? && Digest(k, q, chainB, addressB).Ok?
    ensures var same := p == q && chainA == chainB
                        && WithoutSpace(AddressDigits(addressA)) == WithoutSpace(AddressDigits(addressB));
            var equal := Digest(k, p, chainA, addressA) == Digest(k, q, chainB, addressB);
            && (same ==> equal)
            && (equal ==> same || SomeCollide(k, Preimages(k, p, chainA, addressA), Preimages(k, q, chainB, addressB)))
  {
    var xs, ys := Preimages(k, p, chainA, addressA), Preimages(k, q, chainB, addressB);
    DomainsEqualIff(k, chainA, addressA, chainB, addressB);
    StructsEqualIff(k, p, q);
    DigestPreimageParts(k(xs[0]), k(xs[1]), k(ys[0]), k(ys[1]));
    hide Concat, StructSlots, DomainSlots, AddressDigits, WithoutSpace, Encodable, DigestPreimage, EncodeAddress;
    assert k(xs[2]) == Digest(k, p, chainA, addressA).value && k(ys[2]) == Digest(k, q, chainB, addressB).value;
    if !SomeCollide(k, xs, ys) {
      assert !Collide(k, xs[2], ys[2]) && !Collide(k, xs[1], ys[1]) && !Collide(k, xs[0], ys[0]);
    }
  }

  /** Struct pre-images are equal exactly for equal inputs. */
  lemma StructsEqualIff(k: Keccak, p: PublicInputs, q: PublicInputs)
    requires Concat(StructSlots(k, p)).Ok? && Concat(StructSlots(k, q)).Ok?
    ensures Concat(StructSlots(k, p)) == Concat(StructSlots(k, q)) <==> p == q
  {
    StructPreimage(k, p);
    StructPreimage(k, q);
    hide Concat, StructSlots, Encodable;
    StructRoundTrip(k, p);
    StructRoundTrip(k, q);
  }

  /** Domain pre-images are equal exactly for one chain id and one spelling of the address. */
  lemma DomainsEqualIff(k: Keccak, chainA: int, addressA: string, chainB: int, addressB: string)
    requires Concat(DomainSlots(k, chainA, addressA)).Ok? && Concat(DomainSlots(k, chainB, addressB)).Ok?
    ensures Concat(DomainSlots(k, chainA, addressA)) == Concat(DomainSlots(k, chainB, addressB))
       <==> chainA == chainB && WithoutSpace(AddressDigits(addressA)) == WithoutSpace(AddressDigits(addressB))
  {
    DomainRoundTrip(k, chainA, addressA);
    DomainRoundTrip(k, chainB, addressB);
    SameAddressSlotIff(addressA, addressB);
    if chainA == chainB && EncodeAddress(addressA) == EncodeAddress(addressB) {
      SameDomain(k, chainA, addressA, chainB, addressB);
    }
    hide Concat, DomainSlots, AddressDigits, WithoutSpace, EncodeAddress, FromBytes;
  }

  lemma SameDomain(k: Keccak, chainA: int, addressA: string, chainB: int, addressB: string)
    requires chainA == chainB && EncodeAddress(addressA) == EncodeAddress(addressB)
    ensures Concat(DomainSlots(k, chainA, addressA)) == Concat(DomainSlots(k, chainB, addressB))
  {
  }

  /** Over well-formed addresses the digest binds the address itself, up to letter case and prefix. */
  lemma DigestBindsAddress(k: Keccak, p: PublicInputs, chainA: int, addressA: string,
                           q: PublicInputs, chainB: int, addressB: string)
    requires Digest(k, p, chainA, addressA).Ok? && Digest(k, q, chainB, addressB).Ok?
    requires IsAddress(addressA) && IsAddress(addressB)
    requires Digest(k, p, chainA, addressA) == Digest(k, q, chainB, addressB)
    ensures (p == q && chainA == chainB && AddressDigits(addressA) == AddressDigits(addressB))
         || SomeCollide(k, Preimages(k, p, chainA, addressA), Preimages(k, q, chainB, addressB))
  {
    DigestBinds(k, p, chainA, addressA, q, chainB, addressB);
    NoSpaceInDigits(AddressDigits(addressA));
    NoSpaceInDigits(AddressDigits(addressB));
    hide Digest, AddressDigits, WithoutSpace, SomeCollide, Preimages;
  }

  /** Two spaced addresses that differ give one digest, and no two pre-images that do. */
  lemma SpacedAddressesShareDigest(k: Keccak, p: PublicInputs, chainId: int, digits: string)
    requires |digits| == 38 && IsLowerHex(digits) && Encodable(p) && IsU256(chainId)
    ensures var a, b := "  " + digits, digits + "  ";
            && AddressDigits(a) != AddressDigits(b)
            && Digest(k, p, chainId, a).Ok? && Digest(k, p, chainId, a) == Digest(k, p, chainId, b)
            && !SomeCollide(k, Preimages(k, p, chainId, a), Preimages(k, p, chainId, b))
  {
    var a, b := "  " + digits, digits + "  ";
    SpacedAddressesClash(digits);
    DomainRoundTrip(k, chainId, a);
    DomainRoundTrip(k, chainId, b);
    StructPreimage(k, p);
    SameDomain(k, chainId, a, chainId, b);
    hide Concat, StructSlots, DomainSlots, AddressDigits, EncodeAddress, DigestPreimage, Encodable;
  }

  // ---------- What stands where ----------

  /** The ranges of one slot, in numbers, and its bytes. */
  lemma SlotRanges(v: int)
    ensures EncodeUint(v).Ok? <==>
              0 <= v < 0x1_0000_0000_0000_0000_0000_0000_0000_0000_0000_0000_0000_0000_0000_0000_0000_0000
    ensures EncodeInt(v).Ok? <==>
              -0x8000_0000_0000_0000_0000_0000_0000_0000_0000_0000_0000_0000_0000_0000_0000_0000
              <= v < 0x8000_0000_0000_0000_0000_0000_0000_0000_0000_0000_0000_0000_0000_0000_0000_0000
    ensures EncodeInt(v).Ok? && v >= 0 ==> EncodeUint(v).Ok? && EncodeInt(v) == EncodeUint(v)
    ensures EncodeInt(v).Ok? && v < 0 ==>
              EncodeUint(v + TWO_256).Ok? && EncodeInt(v).value == EncodeUint(v + TWO_256).value
  {
    hide ToBytes;
  }

  lemma {:induction false} ZeroBytes(n: nat)
    ensures forall i :: 0 <= i < n ==> ToBytes(0, n)[i] == 0
  {
    if n > 0 {
      ZeroBytes(n - 1);
    }
  }

  /** Twelve zero bytes and then the bytes the digits spell. */
  lemma AddressSlotBytes(address: string)
    requires EncodeAddress(address).Ok?
    ensures var slot := EncodeAddress(address).value;
            && |slot| >= 12
            && (forall i :: 0 <= i < 12 ==> slot[i] == 0)
            && Hex(slot[12..]) == WithoutSpace(AddressDigits(address))
  {
    FromHexReadsDigits(AddressDigits(address));
    ZeroBytes(12);
    hide AddressDigits, FromHex, Hex, WithoutSpace;
    var slot, zeros := EncodeAddress(address).value, ToBytes(0, 12);
    assert slot[..12] == zeros && slot[12..] == FromHex(AddressDigits(address)).value;
  }

  /** A prefix in either case is dropped, and so is letter case. */
  lemma PrefixAndCase(digits: string)
    requires |digits| == 40 && IsLowerHex(digits)
    ensures AddressDigits(digits) == AddressDigits("0x" + digits) == AddressDigits("0X" + digits) == digits
    ensures AddressDigits("ABCDEF") == "abcdef"
  {
    LowerOfDigits(digits);
    var small, large := "0x" + digits, "0X" + digits;
    assert Lower(small) == small && Lower(large) == small;
    assert small[..2] == "0x" && small[2..] == digits;
    assert Lower("ABCDEF") == "abcdef";
  }

  /** The first three slots of the domain are the hashes of its type, name and version. */
  lemma DomainLayout(k: Keccak, chainId: int, contractAddress: string)
    requires IsU256(chainId) && EncodeAddress(contractAddress).Ok?
    ensures var r := Concat(DomainSlots(k, chainId, contractAddress));
            && r.Ok? && |r.value| >= 128
            && SlotAt(r.value, 0)
               == k(Ascii("EIP712Domain(string name,string version,uint256 chainId,address verifyingContract)"))
            && SlotAt(r.value, 1) == k(Ascii("InfraVeritas Energy"))
            && SlotAt(r.value, 2) == k(Ascii("1"))
            && SlotAt(r.value, 3) == ToBytes(chainId, 32)
            && r.value[128..] == EncodeAddress(contractAddress).value
  {
    DomainRoundTrip(k, chainId, contractAddress);
    var slots := DomainSlots(k, chainId, contractAddress);
    hide Concat, ToBytes, Ascii, EncodeAddress, DomainSlots;
    ConcatIsSplit(slots);
    var front := slots[..4];
    assert Full(front) by {
      FrontIsFull(k, chainId, contractAddress);
    }
    FrontSlots(k, chainId, contractAddress);
    forall i | 0 <= i < 4
      ensures SlotAt(Concat(slots).value, i) == front[i].value
    {
      ConcatSlotAt(front, i);
    }
  }

  lemma FrontIsFull(k: Keccak, chainId: int, contractAddress: string)
    requires IsU256(chainId)
    ensures Full(DomainSlots(k, chainId, contractAddress)[..4])
  {
  }

  lemma FrontSlots(k: Keccak, chainId: int, contractAddress: string)
    requires IsU256(chainId)
    ensures var front := DomainSlots(k, chainId, contractAddress)[..4];
            && front[0]
               == Ok(k(Ascii("EIP712Domain(string name,string version,uint256 chainId,address verifyingContract)")))
            && front[1] == Ok(k(Ascii("InfraVeritas Energy")))
            && front[2] == Ok(k(Ascii("1")))
            && front[3] == Ok(ToBytes(chainId, 32))
  {
  }

  /** The struct pre-image: the hash of its type, then the nine fields in order. */
  lemma StructLayout(k: Keccak, p: PublicInputs)
    requires Encodable(p)
    ensures var r := Concat(StructSlots(k, p));
            && r.Ok? && |r.value| == 320
            && SlotAt(r.value, 0) == k(Ascii(
                 "EnergyProof(uint64 deviceId,uint64 sessionId,uint64 epochStartTs,"
                 + "int64 lat_e7,int64 lon_e7,uint64 lightLevel,uint64 tamperFlag,"
                 + "bytes32 payloadHash,uint64 totalEnergyMWh)"))
            && SlotAt(r.value, 1) == ToBytes(p.deviceId, 32)
            && SlotAt(r.value, 2) == ToBytes(p.sessionId, 32)
            && SlotAt(r.value, 3) == ToBytes(p.epochStartTs, 32)
            && SlotAt(r.value, 4) == ToBytes(if p.latE7 >= 0 then p.latE7 else p.latE7 + TWO_256, 32)
            && SlotAt(r.value, 5) == ToBytes(if p.lonE7 >= 0 then p.lonE7 else p.lonE7 + TWO_256, 32)
            && SlotAt(r.value, 6) == ToBytes(p.lightLevel, 32)
            && SlotAt(r.value, 7) == ToBytes(p.tamperFlag, 32)
            && SlotAt(r.value, 8) == p.payloadHash
            && SlotAt(r.value, 9) == ToBytes(p.totalEnergyMWh, 32)
  {
    var slots := StructSlots(k, p);
    StructPreimage(k, p);
    StructSlotValues(k, p);
    hide Concat, ToBytes, Ascii, StructSlots, Encodable;
    forall i | 0 <= i < 10
      ensures SlotAt(Concat(slots).value, i) == slots[i].value
    {
      ConcatSlotAt(slots, i);
    }
    var pre := Concat(slots).value;
    assert SlotAt(pre, 0) == slots[0].value && SlotAt(pre, 1) == slots[1].value && SlotAt(pre, 2) == slots[2].value;
    assert SlotAt(pre, 3) == slots[3].value && SlotAt(pre, 4) == slots[4].value && SlotAt(pre, 5) == slots[5].value;
    assert SlotAt(pre, 6) == slots[6].value && SlotAt(pre, 7) == slots[7].value && SlotAt(pre, 8) == slots[8].value;
    assert SlotAt(pre, 9) == slots[9].value;
  }

  lemma StructSlotValues(k: Keccak, p: PublicInputs)
    requires Encodable(p)
    ensures var slots := StructSlots(k, p);
            && slots[0] == Ok(k(Ascii(
                 "EnergyProof(uint64 deviceId,uint64 sessionId,uint64 epochStartTs,"
                 + "int64 lat_e7,int64 lon_e7,uint64 lightLevel,uint64 tamperFlag,"
                 + "bytes32 payloadHash,uint64 totalEnergyMWh)")))
            && slots[1] == Ok(ToBytes(p.deviceId, 32)) && slots[2] == Ok(ToBytes(p.sessionId, 32))
            && slots[3] == Ok(ToBytes(p.epochStartTs, 32))
            && slots[4] == Ok(ToBytes(if p.latE7 >= 0 then p.latE7 else p.latE7 + TWO_256, 32))
            && slots[5] == Ok(ToBytes(if p.lonE7 >= 0 then p.lonE7 else p.lonE7 + TWO_256, 32))
            && slots[6] == Ok(ToBytes(p.lightLevel, 32)) && slots[7] == Ok(ToBytes(p.tamperFlag, 32))
            && slots[8] == Ok(p.payloadHash) && slots[9] == Ok(ToBytes(p.totalEnergyMWh, 32))
  {
    SlotRanges(p.latE7);
    SlotRanges(p.lonE7);
    hide ToBytes;
  }

  /** ASCII text is hashed character by character. */
  lemma AsciiBytes(s: string, i: nat)
    requires i < |s| && s[i] < 128 as char
    ensures |Ascii(s)| == |s| && Ascii(s)[i] == s[i] as int
  {
  }

  /** The digest hashes 66 bytes: 0x19 0x01, the hash of the domain and the hash of the struct. */
  lemma DigestLayout(k: Keccak, p: PublicInputs, chainId: int, contractAddress: string) returns (preimage: seq<Byte>)
    requires Digest(k, p, chainId, contractAddress).Ok?
    ensures Digest(k, p, chainId, contractAddress).value == k(preimage)
    ensures |preimage| == 66 && preimage[0] == 0x19 && preimage[1] == 0x01
    ensures Concat(DomainSlots(k, chainId, contractAddress)).Ok? && Concat(StructSlots(k, p)).Ok?
    ensures preimage[2..34] == k(Concat(DomainSlots(k, chainId, contractAddress)).value)
    ensures preimage[34..66] == k(Concat(StructSlots(k, p)).value)
  {
    hide Concat, DomainSlots, StructSlots;
    var domain, struct := k(Concat(DomainSlots(k, chainId, contractAddress)).value), k(Concat(StructSlots(k, p)).value);
    preimage := DigestPreimage(domain, struct);
    assert preimage[2..34] == domain && preimage[34..66] == struct;
  }
}
