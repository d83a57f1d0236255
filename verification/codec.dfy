/** The request payloads and response layouts of the IOTA app's commands,
    in both protocol dialects. */
module Codec {

  import opened Bytes
  import opened Wrappers
  import opened Errors

  const CLA: byte := 0x7a
  const INS_SET_SEED: byte := 0x01
  const INS_PUBKEY: byte := 0x02
  const INS_TX: byte := 0x03
  const INS_SIGN: byte := 0x04
  const INS_GET_APP_CONFIG: byte := 0x10
  const INS_RESET: byte := 0xff

  const TIMEOUT_CMD_PUBKEY: nat := 10000
  const TIMEOUT_CMD_NON_USER_INTERACTION: nat := 10000
  const TIMEOUT_CMD_USER_INTERACTION: nat := 120000

  /** Apps whose minor version is below this speak the legacy dialect. */
  const LEGACY_VERSION_MINOR: int := 5

  const ADDRESS_LENGTH: nat := 81
  const TAG_LENGTH: nat := 27
  const SIGNATURE_CHUNK_LENGTH: nat := 243
  const TX_FIELDS_LENGTH: nat := 132

  /** Which struct builders the driver uses: legacy apps get the seed once by
      SET_SEED; current apps get it inline in PUBKEY and in the first TX. */
  datatype Dialect = Legacy | Current

  // ---- seed fields: u8 security, u32 pathLength, pathLength x u32 ----

  function U32s(xs: seq<uint32>): (r: seq<byte>)
    ensures |r| == 4 * |xs|
  {
    if xs == [] then [] else U32(xs[0]) + U32s(xs[1..])
  }

  function ReadU32s(bs: seq<byte>): (xs: seq<uint32>)
    requires |bs| % 4 == 0
    ensures |xs| == |bs| / 4
    decreases |bs|
  {
    if bs == [] then [] else [ReadU32(bs[..4])] + ReadU32s(bs[4..])
  }

  lemma {:induction false} U32sRoundTrip(xs: seq<uint32>)
    ensures ReadU32s(U32s(xs)) == xs
  {
    if xs != [] {
      var bs := U32s(xs);
      assert bs[..4] == U32(xs[0]) && bs[4..] == U32s(xs[1..]);
      U32RoundTrip(xs[0]);
      U32sRoundTrip(xs[1..]);
    }
  }

  /** `_addSeedFields` laid out and filled by `_initSeedFields`. */
  function SeedFields(security: byte, path: seq<uint32>): (r: seq<byte>)
    requires |path| < TWO_TO_32
    ensures |r| == 5 + 4 * |path|
  {
    [security] + U32(|path|) + U32s(path)
  }

  datatype SeedContext = SeedContext(security: byte, path: seq<uint32>)

  /** How the app reads seed fields off the front of a payload. */
  function ParseSeedFields(bs: seq<byte>): Option<(SeedContext, seq<byte>)>
  {
    if |bs| < 5 then None
    else
      var n := ReadU32(bs[1..5]);
      if |bs| < 5 + 4 * n then None
      else Some((SeedContext(bs[0], ReadU32s(bs[5..5 + 4 * n])), bs[5 + 4 * n..]))
  }

  lemma SeedFieldsRoundTrip(security: byte, path: seq<uint32>, rest: seq<byte>)
    requires |path| < TWO_TO_32
    ensures ParseSeedFields(SeedFields(security, path) + rest)
              == Some((SeedContext(security, path), rest))
  {
    var bs := SeedFields(security, path) + rest;
    assert bs[1..5] == U32(|path|);
    U32RoundTrip(|path|);
    assert bs[5..5 + 4 * |path|] == U32s(path);
    U32sRoundTrip(path);
    assert bs[5 + 4 * |path|..] == rest;
  }

  // ---- PUBKEY ----

  /** `_createPubkeyInput` (current) and `_createPubkeyInputLegacy`. */
  function PubkeyPayload(d: Dialect, security: byte, path: seq<uint32>, index: uint32): seq<byte>
    requires |path| < TWO_TO_32
  {
    match d
    case Legacy => U32(index)
    case Current => SeedFields(security, path) + U32(index)
  }

  /** The legacy payload is the index alone; the current one is the seed
      fields followed by the index. */
  lemma PubkeyPayloadLayout(d: Dialect, security: byte, path: seq<uint32>, index: uint32)
    requires |path| < TWO_TO_32
    ensures var p := PubkeyPayload(d, security, path, index);
      match d
      case Legacy => |p| == 4 && ReadU32(p) == index
      case Current =>
        |p| == 9 + 4 * |path|
        && ParseSeedFields(p) == Some((SeedContext(security, path), U32(index)))
        && ReadU32(p[|p| - 4..]) == index
  {
    U32RoundTrip(index);
    if d == Current {
      SeedFieldsRoundTrip(security, path, U32(index));
      var p := PubkeyPayload(d, security, path, index);
      assert p[|p| - 4..] == U32(index);
    }
  }

  // ---- TX ----

  datatype TxInput = TxInput(
    address: string, addressIdx: uint32, value: int, tag: string,
    txIdx: uint32, txLen: uint32, time: uint32)

  /** `_createTxInputLegacy`: address, u32 addressIdx, i64 value, tag,
      u32 txIdx, u32 txLen, u32 time. */
  function TxFields(t: TxInput): (r: seq<byte>)
    ensures |r| == TX_FIELDS_LENGTH
  {
    Chars(t.address, ADDRESS_LENGTH) + U32(t.addressIdx) + I64(t.value)
      + Chars(t.tag, TAG_LENGTH) + U32(t.txIdx) + U32(t.txLen) + U32(t.time)
  }

  /** How the app reads the 132 transaction bytes. */
  function ReadTxFields(bs: seq<byte>): TxInput
    requires |bs| == TX_FIELDS_LENGTH
  {
    TxInput(ReadChars(bs[..81]), ReadU32(bs[81..85]), ReadI64(bs[85..93]),
            ReadChars(bs[93..120]), ReadU32(bs[120..124]), ReadU32(bs[124..128]),
            ReadU32(bs[128..132]))
  }

  predicate WellFormedTx(t: TxInput)
  {
    |t.address| == ADDRESS_LENGTH && IsByteString(t.address)
    && |t.tag| == TAG_LENGTH && IsByteString(t.tag)
    && -TWO_TO_63 <= t.value < TWO_TO_63
  }

  lemma TxFieldsRoundTrip(t: TxInput)
    requires WellFormedTx(t)
    ensures ReadTxFields(TxFields(t)) == t
  {
    var p1 := Chars(t.address, ADDRESS_LENGTH);
    var p2 := p1 + U32(t.addressIdx);
    var p3 := p2 + I64(t.value);
    var p4 := p3 + Chars(t.tag, TAG_LENGTH);
    var p5 := p4 + U32(t.txIdx);
    var p6 := p5 + U32(t.txLen);
    var bs := p6 + U32(t.time);
    assert bs == TxFields(t);
    assert p1[0..81] == p1;
    assert p2[81..85] == U32(t.addressIdx);
    assert p3[85..93] == I64(t.value);
    assert p4[93..120] == Chars(t.tag, TAG_LENGTH);
    assert p5[120..124] == U32(t.txIdx);
    assert p6[124..128] == U32(t.txLen);
    assert bs[128..132] == U32(t.time);
    SliceOfFront(p1, U32(t.addressIdx), 0, 81);
    SliceOfFront(p2, I64(t.value), 0, 81);
    SliceOfFront(p2, I64(t.value), 81, 85);
    SliceOfFront(p3, Chars(t.tag, TAG_LENGTH), 0, 81);
    SliceOfFront(p3, Chars(t.tag, TAG_LENGTH), 81, 85);
    SliceOfFront(p3, Chars(t.tag, TAG_LENGTH), 85, 93);
    SliceOfFront(p4, U32(t.txIdx), 0, 81);
    SliceOfFront(p4, U32(t.txIdx), 81, 85);
    SliceOfFront(p4, U32(t.txIdx), 85, 93);
    SliceOfFront(p4, U32(t.txIdx), 93, 120);
    SliceOfFront(p5, U32(t.txLen), 0, 81);
    SliceOfFront(p5, U32(t.txLen), 81, 85);
    SliceOfFront(p5, U32(t.txLen), 85, 93);
    SliceOfFront(p5, U32(t.txLen), 93, 120);
    SliceOfFront(p5, U32(t.txLen), 120, 124);
    SliceOfFront(p6, U32(t.time), 0, 81);
    SliceOfFront(p6, U32(t.time), 81, 85);
    SliceOfFront(p6, U32(t.time), 85, 93);
    SliceOfFront(p6, U32(t.time), 93, 120);
    SliceOfFront(p6, U32(t.time), 120, 124);
    SliceOfFront(p6, U32(t.time), 124, 128);
    CharsRoundTrip(t.address);
    CharsRoundTrip(t.tag);
    U32RoundTrip(t.addressIdx);
    I64RoundTrip(t.value);
    U32RoundTrip(t.txIdx);
    U32RoundTrip(t.txLen);
    U32RoundTrip(t.time);
  }

  /** Whether a TX payload carries the seed fields in front. */
  predicate CarriesSeed(d: Dialect, txIdx: uint32)
  {
    d == Current && txIdx == 0
  }

  /** `_createTxInput` (current) and `_createTxInputLegacy`. */
  function TxPayload(d: Dialect, security: byte, path: seq<uint32>, t: TxInput): seq<byte>
    requires |path| < TWO_TO_32
  {
    if CarriesSeed(d, t.txIdx) then SeedFields(security, path) + TxFields(t) else TxFields(t)
  }

  /** The TX payload is the 132 transaction bytes, preceded by the seed fields
      exactly when the dialect is current and this is transaction 0. */
  lemma TxPayloadLayout(d: Dialect, security: byte, path: seq<uint32>, t: TxInput)
    requires |path| < TWO_TO_32
    ensures var p := TxPayload(d, security, path, t);
      var seed := if CarriesSeed(d, t.txIdx) then 5 + 4 * |path| else 0;
      |p| == seed + TX_FIELDS_LENGTH
      && p[seed..] == TxFields(t)
      && (CarriesSeed(d, t.txIdx) ==>
            ParseSeedFields(p) == Some((SeedContext(security, path), TxFields(t))))
  {
    if CarriesSeed(d, t.txIdx) {
      SeedFieldsRoundTrip(security, path, TxFields(t));
    }
  }

  // ---- SIGN ----

  function SignPayload(index: uint32): seq<byte>
  {
    U32(index)
  }

  // ---- responses (the bytes before the status word) ----

  /** PUBKEY response: the 81-character address. */
  function ReadAddressResponse(r: seq<byte>): Result<string, Failure>
  {
    if |r| < ADDRESS_LENGTH then Err(ShortResponse) else Ok(ReadChars(r[..ADDRESS_LENGTH]))
  }

  function AddressResponse(address: string): seq<byte>
  {
    Chars(address, ADDRESS_LENGTH)
  }

  lemma AddressResponseRoundTrip(address: string, trailer: seq<byte>)
    requires |address| == ADDRESS_LENGTH && IsByteString(address)
    ensures ReadAddressResponse(AddressResponse(address) + trailer) == Ok(address)
  {
    assert (AddressResponse(address) + trailer)[..ADDRESS_LENGTH] == AddressResponse(address);
    CharsRoundTrip(address);
  }

  /** SIGN response: a 243-character signature chunk and a signed byte
      counting the fragments still to come. */
  datatype SignChunk = SignChunk(signature: string, fragmentsRemaining: int)

  function ReadSignResponse(r: seq<byte>): Result<SignChunk, Failure>
  {
    if |r| < SIGNATURE_CHUNK_LENGTH + 1 then Err(ShortResponse)
    else Ok(SignChunk(ReadChars(r[..SIGNATURE_CHUNK_LENGTH]), ReadI8(r[SIGNATURE_CHUNK_LENGTH])))
  }

  function SignResponse(c: SignChunk): seq<byte>
    requires -128 <= c.fragmentsRemaining < 128
  {
    Chars(c.signature, SIGNATURE_CHUNK_LENGTH) + [c.fragmentsRemaining % 256]
  }

  lemma SignResponseRoundTrip(c: SignChunk, trailer: seq<byte>)
    requires |c.signature| == SIGNATURE_CHUNK_LENGTH && IsByteString(c.signature)
    requires -128 <= c.fragmentsRemaining < 128
    ensures ReadSignResponse(SignResponse(c) + trailer) == Ok(c)
  {
    var r := SignResponse(c) + trailer;
    assert r[..SIGNATURE_CHUNK_LENGTH] == Chars(c.signature, SIGNATURE_CHUNK_LENGTH);
    CharsRoundTrip(c.signature);
  }

  /** TX response: u8 finalized, then the 81-character bundle hash. */
  datatype TxResult = TxResult(finalized: byte, bundleHash: string)

  function ReadTxResponse(r: seq<byte>): Result<TxResult, Failure>
  {
    if |r| < 1 + ADDRESS_LENGTH then Err(ShortResponse)
    else Ok(TxResult(r[0], ReadChars(r[1..1 + ADDRESS_LENGTH])))
  }

  function TxResponse(t: TxResult): seq<byte>
  {
    [t.finalized] + Chars(t.bundleHash, ADDRESS_LENGTH)
  }

  lemma TxResponseRoundTrip(t: TxResult, trailer: seq<byte>)
    requires |t.bundleHash| == ADDRESS_LENGTH && IsByteString(t.bundleHash)
    ensures ReadTxResponse(TxResponse(t) + trailer) == Ok(t)
  {
    var r := TxResponse(t) + trailer;
    assert r[1..1 + ADDRESS_LENGTH] == Chars(t.bundleHash, ADDRESS_LENGTH);
    CharsRoundTrip(t.bundleHash);
  }

  /** GET_APP_CONFIG response: four bytes. */
  datatype AppConfig = AppConfig(flags: byte, major: byte, minor: byte, patch: byte)

  function ReadAppConfigResponse(r: seq<byte>): Result<AppConfig, Failure>
  {
    if |r| < 4 then Err(ShortResponse) else Ok(AppConfig(r[0], r[1], r[2], r[3]))
  }

  function AppConfigResponse(c: AppConfig): seq<byte>
  {
    [c.flags, c.major, c.minor, c.patch]
  }

  lemma AppConfigResponseRoundTrip(c: AppConfig, trailer: seq<byte>)
    ensures ReadAppConfigResponse(AppConfigResponse(c) + trailer) == Ok(c)
  {
  }
}
