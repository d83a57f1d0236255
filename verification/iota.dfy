/** The `Iota` class: the driver object a host application talks to. Each
    method is proved to do exactly what the matching conversation of module
    `Conversation` describes: same answer, same commands, same replies
    consumed, same new state. */
module Ledger {

  import opened Bytes
  import opened Wrappers
  import opened Errors
  import opened Codec
  import opened Transport
  import opened Bundle
  import opened Fragments
  import opened Version
  import opened Conversation

  /** A call answered `r` after sending `c.sent` and leaving `c.rest` unread,
      exactly as the conversation `c` says. */
  predicate Ran<T(==)>(c: Conv<T>, r: Result<T, Failure>, before: seq<Command>, after: seq<Command>,
                   pending: seq<Reply>)
  {
    r == c.result && after == before + c.sent && pending == c.rest
  }

  // ---- arguments the caller may leave out ----

  /** The security level `setActiveSeed` uses when none is given. */
  const DEFAULT_SECURITY: int := 2

  /** The `security` argument of `setActiveSeed`, or its default. */
  function SecurityArgument(security: Option<int>): int
  {
    if security.Some? then security.value else DEFAULT_SECURITY
  }

  /** The `options` object of `getAddress`; a field left out is `None`. */
  datatype AddressOptions = AddressOptions(checksum: Option<bool>, display: Option<bool>)

  /** `options.checksum || false`, with `{}` when no options are given. */
  function ChecksumAsked(options: Option<AddressOptions>): bool
  {
    options.Some? && options.value.checksum == Some(true)
  }

  /** `options.display || false`, with `{}` when no options are given. */
  function DisplayAsked(options: Option<AddressOptions>): bool
  {
    options.Some? && options.value.display == Some(true)
  }

  // ---- the `forEach` loops of `_signTransaction` ----

  /** `transfers.forEach(t => t.address = noChecksum(t.address))`. */
  method StripTransferChecksums(transfers: seq<Transfer>) returns (r: seq<Transfer>)
    ensures r == StripTransfers(transfers)
  {
    r := transfers;
    var k := 0;
    while k < |r|
      invariant k <= |r| == |transfers|
      invariant forall j :: 0 <= j < k ==> r[j] == StripTransfer(transfers[j])
      invariant forall j :: k <= j < |r| ==> r[j] == transfers[j]
    {
      r := r[k := r[k].(address := NoChecksum(r[k].address))];
      k := k + 1;
    }
  }

  /** `inputs.forEach(i => i.address = noChecksum(i.address))`. */
  method StripInputChecksums(inputs: seq<Input>) returns (r: seq<Input>)
    ensures r == StripInputs(inputs)
  {
    r := inputs;
    var k := 0;
    while k < |r|
      invariant k <= |r| == |inputs|
      invariant forall j :: 0 <= j < k ==> r[j] == StripInput(inputs[j])
      invariant forall j :: k <= j < |r| ==> r[j] == inputs[j]
    {
      r := r[k := r[k].(address := NoChecksum(r[k].address))];
      k := k + 1;
    }
  }

  /** `transfers.forEach(t => t.tag = t.tag ? t.tag.padEnd(27, '9') : EMPTY_TAG)`. */
  method PadTags(transfers: seq<Transfer>) returns (r: seq<Transfer>)
    ensures r == PadTransfers(transfers)
  {
    r := transfers;
    var k := 0;
    while k < |r|
      invariant k <= |r| == |transfers|
      invariant forall j :: 0 <= j < k ==> r[j] == PadTransfer(transfers[j])
      invariant forall j :: k <= j < |r| ==> r[j] == transfers[j]
    {
      r := r[k := r[k].(tag := PadTag(r[k].tag))];
      k := k + 1;
    }
  }

  /** `inputs.forEach(i => i.security = this.security)`. */
  method SetSecurities(inputs: seq<Input>, security: nat) returns (r: seq<Input>)
    ensures r == WithSecurities(inputs, security)
  {
    r := inputs;
    var k := 0;
    while k < |r|
      invariant k <= |r| == |inputs|
      invariant forall j :: 0 <= j < k ==> r[j] == WithSecurity(inputs[j], security)
      invariant forall j :: k <= j < |r| ==> r[j] == inputs[j]
    {
      r := r[k := r[k].(security := security)];
      k := k + 1;
    }
  }

  /** `inputs.forEach(i => addressKeyIndices[i.address] = i.keyIndex)`, then
      the remainder's address. */
  method MapKeyIndices(inputs: seq<Input>, remainder: Option<Remainder>) returns (m: map<string, uint32>)
    ensures m == KeyIndices(inputs, remainder)
  {
    m := map[];
    var k := 0;
    while k < |inputs|
      invariant k <= |inputs|
      invariant m == InputKeyIndices(inputs[..k])
    {
      assert inputs[..k + 1][..k] == inputs[..k];
      m := m[inputs[k].address := inputs[k].keyIndex];
      k := k + 1;
    }
    assert inputs[..k] == inputs;
    if remainder.Some? {
      m := m[remainder.value.address := remainder.value.keyIndex];
    }
  }

  /** `bundle.bundle.forEach(tx => bundleTrytes.push(transactionTrytes(tx)))`. */
  method CollectTrytes(bundle: array<Entry>, trytes: Entry -> string) returns (r: seq<string>)
    ensures r == Trytes(bundle[..], trytes)
  {
    r := [];
    var k := 0;
    while k < bundle.Length
      invariant k <= bundle.Length
      invariant |r| == k && forall j :: 0 <= j < k ==> r[j] == trytes(bundle[j])
    {
      r := r + [trytes(bundle[k])];
      k := k + 1;
    }
  }

  class Iota {
    const device: Device
    var security: int
    var pathArray: seq<uint32>
    /** Which struct layouts the driver uses; the source switches by replacing
        `_createPubkeyInput` and `_createTxInput` with their legacy versions. */
    var dialect: Dialect

    function State(): Session
      reads this
    {
      Session(security, pathArray, dialect)
    }

    /** The driver's invariant: no seed, or a seed with a valid security level
        and a path of 2 to 5 levels. */
    predicate Valid()
      reads this
    {
      WellFormed(State())
    }

    constructor (transport: Device)
      ensures device == transport && State() == INITIAL_SESSION && Valid()
    {
      device := transport;
      security := 0;
      pathArray := [];
      dialect := Current;
    }

    // ---- single exchanges ----

    method SendCommand(ins: byte, p1: byte, p2: byte, data: seq<byte>, timeout: nat)
      returns (r: Result<seq<byte>, Failure>)
      modifies device
      ensures Ran(Send(Command(CLA, ins, p1, p2, data, timeout), old(device.pending)), r,
                  old(device.sent), device.sent, device.pending)
    {
      var reply := device.Exchange(Command(CLA, ins, p1, p2, data, timeout));
      r := Channel(reply);
    }

    method GetAppConfig() returns (r: Result<AppConfig, Failure>)
      modifies device
      ensures Ran(GetAppConfigConv(old(device.pending)), r, old(device.sent), device.sent, device.pending)
    {
      var response := SendCommand(INS_GET_APP_CONFIG, 0, 0, [], TIMEOUT_CMD_NON_USER_INTERACTION);
      if response.Err? {
        return Err(response.error);
      }
      r := ReadAppConfigResponse(response.value);
    }

    method Reset(partial: bool) returns (r: Result<(), Failure>)
      modifies device
      ensures Ran(ResetConv(partial, old(device.pending)), r, old(device.sent), device.sent, device.pending)
    {
      var response := SendCommand(INS_RESET, if partial then 1 else 0, 0, [], TIMEOUT_CMD_NON_USER_INTERACTION);
      if response.Err? {
        return Err(response.error);
      }
      r := Ok(());
    }

    method SetSeed() returns (r: Result<(), Failure>)
      requires Active(State())
      modifies device
      ensures Ran(SetSeedConv(State(), old(device.pending)), r, old(device.sent), device.sent, device.pending)
    {
      var response := SendCommand(INS_SET_SEED, 0, 0, SeedFields(security, pathArray),
                                  TIMEOUT_CMD_NON_USER_INTERACTION);
      if response.Err? {
        return Err(response.error);
      }
      r := Ok(());
    }

    method PublicKey(index: uint32, display: bool) returns (r: Result<string, Failure>)
      requires Active(State())
      modifies device
      ensures Ran(PublicKeyConv(State(), index, display, old(device.pending)), r,
                  old(device.sent), device.sent, device.pending)
    {
      var response := SendCommand(INS_PUBKEY, if display then 0x01 else 0x00, 0,
                                  PubkeyPayload(dialect, security, pathArray, index), TIMEOUT_CMD_PUBKEY);
      if response.Err? {
        return Err(response.error);
      }
      r := ReadAddressResponse(response.value);
    }

    method Sign(index: uint32) returns (r: Result<SignChunk, Failure>)
      modifies device
      ensures Ran(SignConv(index, old(device.pending)), r, old(device.sent), device.sent, device.pending)
    {
      var response := SendCommand(INS_SIGN, 0, 0, SignPayload(index), TIMEOUT_CMD_PUBKEY);
      if response.Err? {
        return Err(response.error);
      }
      r := ReadSignResponse(response.value);
    }

    method Transaction(address: string, addressIdx: uint32, value: int, tag: string,
                       txIdx: uint32, txLen: uint32, time: uint32) returns (r: Result<TxResult, Failure>)
      requires Active(State())
      modifies device
      ensures Ran(TransactionConv(State(), TxInput(address, addressIdx, value, tag, txIdx, txLen, time),
                                  old(device.pending)), r, old(device.sent), device.sent, device.pending)
    {
      var t := TxInput(address, addressIdx, value, tag, txIdx, txLen, time);
      var timeout := TIMEOUT_CMD_NON_USER_INTERACTION;
      if txIdx == txLen {
        timeout := TIMEOUT_CMD_USER_INTERACTION;
      }
      var response := SendCommand(INS_TX, if txIdx == 0 then 0x00 else 0x80, 0,
                                  TxPayload(dialect, security, pathArray, t), timeout);
      if response.Err? {
        return Err(response.error);
      }
      r := ReadTxResponse(response.value);
    }

    // ---- the public API ----

    /** `setActiveSeed(path, security = 2)`; `path` is the parsed BIP32 path,
        or `None` when the path string does not validate, and `security` is
        `None` when the caller leaves it out. */
    method SetActiveSeed(path: Option<seq<uint32>>, securityArgument: Option<int>) returns (r: Result<(), Failure>)
      requires Valid()
      modifies this, device
      ensures Valid()
      ensures var a := Activate(old(State()), path, SecurityArgument(securityArgument), old(device.pending));
        State() == a.session && Ran(a.conv, r, old(device.sent), device.sent, device.pending)
    {
      var security := if securityArgument.Some? then securityArgument.value else DEFAULT_SECURITY;
      if path.None? {
        return Err(InvalidPathString);
      }
      var pathArray := path.value;
      if |pathArray| < 2 || |pathArray| > 5 {
        return Err(InvalidPathLength);
      }
      if !IsSecurity(security) {
        return Err(InvalidSecurity);
      }
      this.pathArray := pathArray;
      this.security := security;
      var appConfig := GetAppConfig();
      if appConfig.Err? {
        return Err(appConfig.error);
      }
      if appConfig.value.minor < LEGACY_VERSION_MINOR {
        dialect := Legacy;
        r := SetSeed();
      } else {
        r := Reset(true);
      }
    }

    /** `getAddress(index, options = {})`. */
    method GetAddress(index: int, options: Option<AddressOptions>, ext: External)
      returns (r: Result<string, Failure>)
      requires Valid()
      modifies device
      ensures Ran(AddressConv(State(), index, ChecksumAsked(options), DisplayAsked(options), ext,
                              old(device.pending)), r, old(device.sent), device.sent, device.pending)
    {
      if security == 0 {
        return Err(SeedNotInitialized);
      }
      if !IsIndex(index) {
        return Err(InvalidIndex);
      }
      var checksum := options.Some? && options.value.checksum == Some(true);
      var display := options.Some? && options.value.display == Some(true);
      var address := PublicKey(index, display);
      if address.Ok? && checksum {
        return Ok(ext.addChecksum(address.value));
      }
      r := address;
    }

    /** `getAppVersion()`. */
    method GetAppVersion() returns (r: Result<string, Failure>)
      modifies device
      ensures Ran(VersionConv(old(device.pending)), r, old(device.sent), device.sent, device.pending)
    {
      var config := GetAppConfig();
      if config.Err? {
        return Err(config.error);
      }
      r := Ok(VersionString(config.value));
    }

    // ---- signing ----

    /** `_getSignatureFragments(index)`: SIGN until no fragment remains, then
        cut the signature into 2187-character fragments. */
    method GetSignatureFragments(index: uint32) returns (r: Result<Option<seq<string>>, Failure>)
      modifies device
      ensures Ran(SignatureFragmentsConv(index, old(device.pending)), r, old(device.sent), device.sent, device.pending)
    {
      var signature := "";
      ghost var whole := CollectSignature(index, "", device.pending);
      ghost var sent0 := device.sent;
      while true
        invariant CollectSignature(index, signature, device.pending).result == whole.result
        invariant CollectSignature(index, signature, device.pending).rest == whole.rest
        invariant sent0 + whole.sent == device.sent + CollectSignature(index, signature, device.pending).sent
        decreases |device.pending|
      {
        var result := Sign(index);
        if result.Err? {
          return Err(result.error);
        }
        signature := signature + result.value.signature;
        if result.value.fragmentsRemaining == 0 {
          break;
        }
      }
      r := Ok(Match(signature));
    }

    /** The part of `_addSignatureFragmentsToBundle` after transaction `i`'s
        signature came back: its first fragment goes on transaction `i`, the
        others on the zero-value transactions of the same address among the
        next `security - 1`; `stopped` when that runs past the bundle's end. */
    method PlaceFragments(bundle: array<Entry>, i: nat, fragments: seq<string>) returns (last: nat, stopped: bool)
      requires i < bundle.Length
      modifies bundle
      ensures var fill := SignAt(old(bundle[..]), i, fragments, security);
        bundle[..] == fill.entries && last == fill.last && stopped == fill.stopped
    {
      ghost var fill := SignAt(bundle[..], i, fragments, security);
      var address := bundle[i].address;
      var shifted := Shift(fragments);
      var q := shifted.1;
      bundle[i] := bundle[i].(signatureMessageFragment := shifted.0);
      last := i;
      var j := 1;
      while j < security
        invariant last < bundle.Length
        invariant FillMeta(bundle[..], last, address, q, j, security) == fill
        decreases security - j
      {
        ghost var previous := last;
        last := last + 1;
        if last >= bundle.Length {
          assert FillMeta(bundle[..], previous, address, q, j, security) == Fill(bundle[..], last, q, true);
          return last, true;
        }
        var tx := bundle[last];
        if tx.address == address && tx.value == 0 {
          shifted := Shift(q);
          q := shifted.1;
          bundle[last] := tx.(signatureMessageFragment := shifted.0);
        }
        j := j + 1;
      }
      stopped := false;
    }

    /** `_addSignatureFragmentsToBundle(bundle)`: every spending transaction
        gets its signature's fragments, the first on itself and the others on
        the following zero-value transactions of its address. */
    method AddSignatureFragmentsToBundle(bundle: array<Entry>) returns (r: Outcome<Failure>)
      requires bundle.Length <= TWO_TO_32
      modifies bundle, device
      ensures var g := SignFrom(old(bundle[..]), 0, security, old(device.pending));
        bundle[..] == g.entries && r == g.outcome
        && device.sent == old(device.sent) + g.sent && device.pending == g.rest
    {
      ghost var whole := SignFrom(bundle[..], 0, security, device.pending);
      ghost var sent0 := device.sent;
      ghost var c := whole;
      var i := 0;
      while i < bundle.Length
        invariant 0 <= i <= bundle.Length
        invariant c == SignFrom(bundle[..], i, security, device.pending)
        invariant c.entries == whole.entries && c.outcome == whole.outcome && c.rest == whole.rest
        invariant sent0 + whole.sent == device.sent + c.sent
        decreases bundle.Length - i
      {
        if bundle[i].value >= 0 {
          i := i + 1;
          c := SignFrom(bundle[..], i, security, device.pending);
          continue;
        }
        ghost var E := bundle[..];
        ghost var p := device.pending;
        ghost var sentHere := device.sent;
        ghost var conv := SignatureFragmentsConv(i, p);
        var signatureFragments := GetSignatureFragments(i);
        if signatureFragments.Err? {
          return Fail(signatureFragments.error);
        }
        if signatureFragments.value.None? {
          return Fail(NoSignatureFragment);
        }
        ghost var fragments := signatureFragments.value.value;
        var last, stopped := PlaceFragments(bundle, i, signatureFragments.value.value);
        if stopped {
          return Pass;
        }
        SignFromStep(E, i, security, p, conv, SignAt(E, i, fragments, security));
        i := last + 1;
        c := SignFrom(bundle[..], i, security, device.pending);
        AppendAssociates(sentHere, conv.sent, c.sent);
      }
      r := Pass;
    }

    /** The loop of `_signBundle`: one `_transaction` per entry, keeping the
        device's last answer. */
    method SubmitBundle(bundle: array<Entry>, addressKeyIndices: map<string, uint32>)
      returns (r: Result<TxResult, Failure>)
      requires Active(State())
      modifies device
      ensures Ran(SubmitFrom(bundle[..], 0, addressKeyIndices, State(), NO_TX_RESULT, old(device.pending)),
                  r, old(device.sent), device.sent, device.pending)
    {
      ghost var s := State();
      ghost var E := bundle[..];
      ghost var whole := SubmitFrom(E, 0, addressKeyIndices, s, NO_TX_RESULT, device.pending);
      ghost var sent0 := device.sent;
      ghost var c := whole;
      var last := NO_TX_RESULT;
      var k := 0;
      while k < bundle.Length
        invariant 0 <= k <= bundle.Length
        invariant c == SubmitFrom(E, k, addressKeyIndices, s, last, device.pending)
        invariant c.result == whole.result && c.rest == whole.rest
        invariant sent0 + whole.sent == device.sent + c.sent
        decreases bundle.Length - k
      {
        var tx := bundle[k];
        var keyIndex: uint32 :=
          if tx.address in addressKeyIndices && addressKeyIndices[tx.address] != 0
          then addressKeyIndices[tx.address] else 0;
        ghost var t := TxOf(E[k], addressKeyIndices);
        assert t == TxInput(tx.address, keyIndex, tx.value, tx.obsoleteTag, tx.currentIndex, tx.lastIndex, tx.timestamp);
        ghost var sentBefore := device.sent;
        ghost var step := TransactionConv(s, t, device.pending);
        var result := Transaction(tx.address, keyIndex, tx.value, tx.obsoleteTag,
                                  tx.currentIndex, tx.lastIndex, tx.timestamp);
        if result.Err? {
          return Err(result.error);
        }
        c := SubmitFrom(E, k + 1, addressKeyIndices, s, result.value, device.pending);
        assert device.sent == sentBefore + step.sent;
        AppendAssociates(sentBefore, step.sent, c.sent);
        last := result.value;
        k := k + 1;
      }
      return Ok(last);
    }

    /** `_signBundle(bundle, addressKeyIndices)`: send every transaction, check
        the device finalized the bundle with its hash, then sign it. */
    method SignBundle(bundle: array<Entry>, addressKeyIndices: map<string, uint32>) returns (r: Outcome<Failure>)
      requires Active(State()) && bundle.Length <= TWO_TO_32
      modifies bundle, device
      ensures var g := SignBundleConv(old(bundle[..]), addressKeyIndices, State(), old(device.pending));
        bundle[..] == g.entries && r == g.outcome
        && device.sent == old(device.sent) + g.sent && device.pending == g.rest
    {
      ghost var E := bundle[..];
      ghost var sent0 := device.sent;
      var submitted := SubmitBundle(bundle, addressKeyIndices);
      ghost var c := SubmitFrom(E, 0, addressKeyIndices, State(), NO_TX_RESULT, old(device.pending));
      assert submitted == c.result && device.sent == sent0 + c.sent && device.pending == c.rest;
      if submitted.Err? {
        return Fail(submitted.error);
      }
      if submitted.value.finalized == 0 {
        return Fail(NotFinalized);
      }
      if submitted.value.bundleHash != bundle[0].bundle {
        return Fail(WrongBundleHash);
      }
      r := AddSignatureFragmentsToBundle(bundle);
      ghost var g := SignFrom(E, 0, security, c.rest);
      assert device.sent == sent0 + (c.sent + g.sent);
    }

    // ---- signTransaction ----

    /** `_hasDuplicateAddresses(transfers, inputs, remainder)`: collect the
        transfer and input addresses in a set, then test the remainder's
        address against it and the set's `length` against the count. */
    method HasDuplicateAddresses(transfers: seq<Transfer>, inputs: seq<Input>, remainder: Option<Remainder>)
      returns (r: bool)
      ensures r == Bundle.HasDuplicateAddresses(transfers, inputs, remainder)
    {
      var seen: set<string> := {};
      var k := 0;
      while k < |transfers|
        invariant k <= |transfers|
        invariant seen == set t | t in transfers[..k] :: t.address
      {
        assert transfers[..k + 1] == transfers[..k] + [transfers[k]];
        seen := seen + {transfers[k].address};
        k := k + 1;
      }
      assert transfers[..k] == transfers;
      k := 0;
      while k < |inputs|
        invariant k <= |inputs|
        invariant seen == (set t | t in transfers :: t.address) + (set i | i in inputs[..k] :: i.address)
      {
        assert inputs[..k + 1] == inputs[..k] + [inputs[k]];
        seen := seen + {inputs[k].address};
        k := k + 1;
      }
      assert inputs[..k] == inputs;
      if remainder.Some? && remainder.value.address in seen {
        return true;
      }
      r := SetLengthProperty(seen) == Some(|transfers| + |inputs|);
    }

    /** The first half of `_signTransaction`: strip the checksums, refuse
        duplicate addresses, pad the tags and give every input the session's
        security level. */
    method NormaliseRequest(req: Request) returns (r: Result<Request, Failure>)
      requires Valid()
      ensures r == Normalise(security, req)
    {
      var transfers := StripTransferChecksums(req.transfers);
      var inputs := StripInputChecksums(req.inputs);
      var remainder := req.remainder;
      if remainder.Some? {
        remainder := Some(remainder.value.(address := NoChecksum(remainder.value.address)));
      }
      var duplicates := HasDuplicateAddresses(transfers, inputs, remainder);
      if duplicates {
        return Err(DuplicateAddresses);
      }
      transfers := PadTags(transfers);
      inputs := SetSecurities(inputs, security);
      r := Ok(Request(transfers, inputs, remainder));
    }

    /** `_signTransaction(transfers, inputs, remainder)` at time `timestamp`:
        normalise the request, build and finalize the bundle, sign it on the
        device and answer its trytes from the last transaction to the first. */
    method SignRequest(ext: External, req: Request, timestamp: uint32) returns (r: Result<seq<string>, Failure>)
      requires Active(State()) && |req.transfers| <= MAX_TRANSFERS && 1 <= |req.inputs| <= MAX_INPUTS
      modifies device
      ensures Ran(SignRequestConv(State(), ext, req, timestamp, old(device.pending)), r,
                  old(device.sent), device.sent, device.pending)
    {
      var normalised := NormaliseRequest(req);
      if normalised.Err? {
        return Err(normalised.error);
      }
      var n := normalised.value;
      NormaliseKeepsShape(security, req);
      var entries := BuildBundle(n, timestamp, ext.bundleHash);
      var bundle := new Entry[|entries|](k requires 0 <= k < |entries| => entries[k]);
      assert bundle[..] == entries;
      var addressKeyIndices := MapKeyIndices(n.inputs, n.remainder);
      ghost var sb := SignBundleConv(entries, addressKeyIndices, State(), device.pending);
      SignRequestSigns(State(), ext, req, timestamp, device.pending, n, sb);
      var signed := SignBundle(bundle, addressKeyIndices);
      if signed.Fail? {
        return Err(signed.error);
      }
      var bundleTrytes := CollectTrytes(bundle, ext.transactionTrytes);
      r := Ok(Reversed(bundleTrytes));
    }

    /** `signTransaction(transfers, inputs, remainder)` at time `timestamp`:
        the host-side checks, the signing, then a partial reset. */
    method SignTransaction(ext: External, transfers: seq<Transfer>, inputs: seq<Input>,
                           remainder: Option<Remainder>, timestamp: uint32)
      returns (r: Result<seq<string>, Failure>)
      requires Valid()
      modifies device
      ensures Ran(SignTransactionConv(State(), ext, transfers, inputs, remainder, timestamp, old(device.pending)),
                  r, old(device.sent), device.sent, device.pending)
    {
      if security == 0 {
        return Err(SeedNotInitialized);
      }
      var checked := CheckRequest(ext, transfers, inputs, remainder);
      if checked.Err? {
        return Err(checked.error);
      }
      AcceptedRequestBalances(ext, transfers, inputs, remainder);
      ghost var sent0 := device.sent;
      ghost var p := device.pending;
      var trytes := SignRequest(ext, checked.value, timestamp);
      if trytes.Err? {
        return Err(trytes.error);
      }
      ghost var sentSigned := device.sent;
      var reset := Reset(true);
      if reset.Err? {
        r := Err(reset.error);
      } else {
        r := trytes;
      }
      ghost var c := SignRequestConv(State(), ext, checked.value, timestamp, p);
      AppendAssociates(sent0, c.sent, ResetConv(true, c.rest).sent);
    }
  }
}
