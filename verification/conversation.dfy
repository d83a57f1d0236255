/** The driver's conversations with the device, as functions of the replies the
    device is going to give. Each returns what the driver's call returns (or
    throws), the commands it sends, in order, and the replies it leaves unread.
    The methods of `Ledger.Iota` are proved to behave exactly as these. */
module Conversation {

  import opened Bytes
  import opened Wrappers
  import opened Errors
  import opened Codec
  import opened Transport
  import opened Bundle
  import opened Fragments
  import opened Version

  /** The driver's state: `security` (0 until a seed is set), `pathArray`, and
      which struct layouts `_createPubkeyInput` and `_createTxInput` use. */
  datatype Session = Session(security: int, path: seq<uint32>, dialect: Dialect)

  const INITIAL_SESSION: Session := Session(0, [], Current)

  /** A seed has been set: a valid security level and a path of 2 to 5 levels. */
  predicate Active(s: Session)
  {
    IsSecurity(s.security) && 2 <= |s.path| <= 5
  }

  predicate WellFormed(s: Session)
  {
    s.security == 0 || Active(s)
  }

  // ---- commands ----

  const GET_APP_CONFIG_COMMAND: Command :=
    Command(CLA, INS_GET_APP_CONFIG, 0, 0, [], TIMEOUT_CMD_NON_USER_INTERACTION)

  function ResetCommand(partial: bool): Command
  {
    Command(CLA, INS_RESET, if partial then 1 else 0, 0, [], TIMEOUT_CMD_NON_USER_INTERACTION)
  }

  function SetSeedCommand(s: Session): Command
    requires Active(s)
  {
    Command(CLA, INS_SET_SEED, 0, 0, SeedFields(s.security, s.path), TIMEOUT_CMD_NON_USER_INTERACTION)
  }

  function PubkeyCommand(s: Session, index: uint32, display: bool): Command
    requires Active(s)
  {
    Command(CLA, INS_PUBKEY, if display then 1 else 0, 0,
            PubkeyPayload(s.dialect, s.security, s.path, index), TIMEOUT_CMD_PUBKEY)
  }

  function SignCommand(index: uint32): Command
  {
    Command(CLA, INS_SIGN, 0, 0, SignPayload(index), TIMEOUT_CMD_PUBKEY)
  }

  function TxCommand(s: Session, t: TxInput): Command
    requires Active(s)
  {
    Command(CLA, INS_TX, if t.txIdx == 0 then 0x00 else 0x80, 0,
            TxPayload(s.dialect, s.security, s.path, t),
            if t.txIdx == t.txLen then TIMEOUT_CMD_USER_INTERACTION else TIMEOUT_CMD_NON_USER_INTERACTION)
  }

  // ---- single exchanges ----

  datatype Conv<T> = Conv(result: Result<T, Failure>, sent: seq<Command>, rest: seq<Reply>)

  /** `_sendCommand`. */
  function Send(cmd: Command, p: seq<Reply>): Conv<seq<byte>>
  {
    Conv(Channel(NextReply(p)), [cmd], Later(p))
  }

  /** `_getAppConfig`. */
  function GetAppConfigConv(p: seq<Reply>): Conv<AppConfig>
  {
    var c := Send(GET_APP_CONFIG_COMMAND, p);
    Conv(if c.result.Ok? then ReadAppConfigResponse(c.result.value) else Err(c.result.error), c.sent, c.rest)
  }

  /** `_reset(partial)`. */
  function ResetConv(partial: bool, p: seq<Reply>): Conv<()>
  {
    var c := Send(ResetCommand(partial), p);
    Conv(if c.result.Ok? then Ok(()) else Err(c.result.error), c.sent, c.rest)
  }

  /** `_setSeed`. */
  function SetSeedConv(s: Session, p: seq<Reply>): Conv<()>
    requires Active(s)
  {
    var c := Send(SetSeedCommand(s), p);
    Conv(if c.result.Ok? then Ok(()) else Err(c.result.error), c.sent, c.rest)
  }

  /** `_publicKey(index, display)`. */
  function PublicKeyConv(s: Session, index: uint32, display: bool, p: seq<Reply>): Conv<string>
    requires Active(s)
  {
    var c := Send(PubkeyCommand(s, index, display), p);
    Conv(if c.result.Ok? then ReadAddressResponse(c.result.value) else Err(c.result.error), c.sent, c.rest)
  }

  /** `_sign(index)`. */
  function SignConv(index: uint32, p: seq<Reply>): Conv<SignChunk>
  {
    var c := Send(SignCommand(index), p);
    Conv(if c.result.Ok? then ReadSignResponse(c.result.value) else Err(c.result.error), c.sent, c.rest)
  }

  /** `_transaction(...)`. */
  function TransactionConv(s: Session, t: TxInput, p: seq<Reply>): Conv<TxResult>
    requires Active(s)
  {
    var c := Send(TxCommand(s, t), p);
    Conv(if c.result.Ok? then ReadTxResponse(c.result.value) else Err(c.result.error), c.sent, c.rest)
  }

  /** Every single exchange sends one command and consumes one reply, and
      succeeds only on a response. */
  lemma SingleExchanges(s: Session, index: uint32, display: bool, t: TxInput, p: seq<Reply>)
    requires Active(s)
    ensures var c := PublicKeyConv(s, index, display, p);
      c.sent == [PubkeyCommand(s, index, display)] && c.rest == Later(p)
      && (c.result.Ok? ==> (p != [] && p[0].Response? && c.result == ReadAddressResponse(p[0].data)))
    ensures var c := SignConv(index, p);
      c.sent == [SignCommand(index)] && c.rest == Later(p)
      && (c.result.Ok? ==> p != [] && p[0].Response? && c.result == ReadSignResponse(p[0].data))
    ensures var c := TransactionConv(s, t, p);
      c.sent == [TxCommand(s, t)] && c.rest == Later(p)
      && (c.result.Ok? ==> p != [] && p[0].Response? && c.result == ReadTxResponse(p[0].data))
  {
  }

  // ---- setActiveSeed ----

  datatype Activation = Activation(session: Session, conv: Conv<()>)

  /** `setActiveSeed(path, security)`; `path` is the parsed BIP32 path, or
      `None` when the path string does not validate. */
  function Activate(s: Session, path: Option<seq<uint32>>, security: int, p: seq<Reply>): Activation
  {
    if path.None? then Activation(s, Conv(Err(InvalidPathString), [], p))
    else if |path.value| < 2 || |path.value| > 5 then Activation(s, Conv(Err(InvalidPathLength), [], p))
    else if !IsSecurity(security) then Activation(s, Conv(Err(InvalidSecurity), [], p))
    else
      var seeded := s.(path := path.value, security := security);
      var config := GetAppConfigConv(p);
      if config.result.Err? then
        Activation(seeded, Conv(Err(config.result.error), config.sent, config.rest))
      else if config.result.value.minor < LEGACY_VERSION_MINOR then
        var legacy := seeded.(dialect := Legacy);
        var seed := SetSeedConv(legacy, config.rest);
        Activation(legacy, Conv(seed.result, config.sent + seed.sent, seed.rest))
      else
        var reset := ResetConv(true, config.rest);
        Activation(seeded, Conv(reset.result, config.sent + reset.sent, reset.rest))
  }

  predicate AcceptsSeed(path: Option<seq<uint32>>, security: int)
  {
    path.Some? && 2 <= |path.value| <= 5 && IsSecurity(security)
  }

  /** A rejected path or security level leaves the driver as it was and talks
      to no device; an accepted one is stored before the device is asked
      anything, so it stays even when the device then fails. */
  lemma ActivateStoresSeedFirst(s: Session, path: Option<seq<uint32>>, security: int, p: seq<Reply>)
    ensures var a := Activate(s, path, security, p);
      && (!AcceptsSeed(path, security) ==>
            a.session == s && a.conv.sent == [] && a.conv.rest == p && a.conv.result.Err?)
      && (AcceptsSeed(path, security) ==>
            Active(a.session) && a.session.path == path.value && a.session.security == security
            && 1 <= |a.conv.sent| <= 2 && a.conv.sent[0] == GET_APP_CONFIG_COMMAND)
      && (WellFormed(s) ==> WellFormed(a.session))
  {
  }

  /** Legacy structs are chosen exactly when the app reports a minor version
      below 5, and then the seed is sent with SET_SEED; otherwise the app is
      partially reset. A legacy choice is never undone. */
  lemma ActivateChoosesDialect(s: Session, path: Option<seq<uint32>>, security: int, p: seq<Reply>, cfg: AppConfig)
    requires AcceptsSeed(path, security)
    requires GetAppConfigConv(p).result == Ok(cfg)
    ensures var a := Activate(s, path, security, p);
      && (a.session.dialect == Legacy <==> cfg.minor < LEGACY_VERSION_MINOR || s.dialect == Legacy)
      && a.conv.sent == [GET_APP_CONFIG_COMMAND,
                         if cfg.minor < LEGACY_VERSION_MINOR then SetSeedCommand(a.session)
                         else ResetCommand(true)]
  {
  }

  // ---- getAddress ----

  /** `getAddress(index, {checksum, display})`. */
  function AddressConv(s: Session, index: int, checksum: bool, display: bool, ext: External,
                       p: seq<Reply>): Conv<string>
    requires WellFormed(s)
  {
    if s.security == 0 then Conv(Err(SeedNotInitialized), [], p)
    else if !IsIndex(index) then Conv(Err(InvalidIndex), [], p)
    else
      var c := PublicKeyConv(s, index, display, p);
      if c.result.Ok? && checksum then Conv(Ok(ext.addChecksum(c.result.value)), c.sent, c.rest) else c
  }

  /** Without a seed or with an index outside 32 bits nothing is sent; otherwise
      exactly one PUBKEY command, whose payload carries the index (after the
      seed fields in the current layout), and the answer is the address the
      device returns, with the checksum added when asked for. */
  lemma AddressConvOneCommand(s: Session, index: int, checksum: bool, display: bool, ext: External,
                              p: seq<Reply>)
    requires WellFormed(s)
    ensures var c := AddressConv(s, index, checksum, display, ext, p);
      && (s.security == 0 ==> c.result == Err(SeedNotInitialized) && c.sent == [])
      && (s.security != 0 && !IsIndex(index) ==> c.result == Err(InvalidIndex) && c.sent == [])
      && (s.security != 0 && IsIndex(index) ==>
            c.sent == [PubkeyCommand(s, index, display)]
            && c.sent[0].p1 == (if display then 1 else 0)
            && ReadU32(c.sent[0].data[|c.sent[0].data| - 4..]) == index
            && (c.result.Ok? ==>
                  (p != [] && p[0].Response? && |p[0].data| >= ADDRESS_LENGTH
                   && c.result.value == (if checksum then ext.addChecksum(ReadChars(p[0].data[..ADDRESS_LENGTH]))
                                         else ReadChars(p[0].data[..ADDRESS_LENGTH])))))
  {
    if s.security != 0 && IsIndex(index) {
      PubkeyPayloadLayout(s.dialect, s.security, s.path, index);
      U32RoundTrip(index);
    }
  }

  // ---- getAppVersion ----

  /** `getAppVersion()`. */
  function VersionConv(p: seq<Reply>): Conv<string>
  {
    var c := GetAppConfigConv(p);
    Conv(if c.result.Ok? then Ok(VersionString(c.result.value)) else Err(c.result.error), c.sent, c.rest)
  }

  /** The version string reads back as bytes 1, 2 and 3 of the configuration
      response: major, minor and patch. */
  lemma VersionConvReportsConfig(p: seq<Reply>)
    ensures var c := VersionConv(p);
      && c.sent == [GET_APP_CONFIG_COMMAND]
      && (c.result.Ok? <==> p != [] && p[0].Response? && |p[0].data| >= 4)
      && (c.result.Ok? ==>
            ParseVersion(c.result.value) == Some((p[0].data[1] as nat, p[0].data[2] as nat, p[0].data[3] as nat)))
  {
    var c := GetAppConfigConv(p);
    if c.result.Ok? {
      VersionStringRoundTrip(c.result.value);
    }
  }

  // ---- collecting a signature ----

  /** The loop of `_getSignatureFragments`: SIGN commands until the device
      reports no fragments remaining, the chunks appended to `signature`. */
  function CollectSignature(index: uint32, signature: string, p: seq<Reply>): Conv<string>
    decreases |p|
  {
    var c := SignConv(index, p);
    if c.result.Err? then Conv(Err(c.result.error), c.sent, c.rest)
    else
      var sig := signature + c.result.value.signature;
      if c.result.value.fragmentsRemaining == 0 then Conv(Ok(sig), c.sent, c.rest)
      else
        var more := CollectSignature(index, sig, c.rest);
        Conv(more.result, c.sent + more.sent, more.rest)
  }

  /** A SIGN reply the driver can read: a response holding a chunk and the
      count of fragments remaining. */
  predicate ReadableSign(reply: Reply)
  {
    reply.Response? && ReadSignResponse(reply.data).Ok?
  }

  /** A readable SIGN reply whose count of fragments remaining is truthy. */
  predicate MoreToCome(reply: Reply)
  {
    ReadableSign(reply) && ReadSignResponse(reply.data).value.fragmentsRemaining != 0
  }

  /** Reply `k` of the script is there and says more fragments remain. */
  predicate MoreToComeAt(p: seq<Reply>, k: nat)
  {
    k < |p| && MoreToCome(p[k])
  }

  /** The chunk a readable SIGN reply carries. */
  function ChunkOf(reply: Reply): string
  {
    if ReadableSign(reply) then ReadSignResponse(reply.data).value.signature else ""
  }

  /** The chunks of a run of SIGN replies, one after the other. */
  function Chunks(replies: seq<Reply>): string
  {
    if replies == [] then "" else ChunkOf(replies[0]) + Chunks(replies[1..])
  }

  /** Only SIGN commands for the index go out, one per reply consumed. Every
      reply but the last one read says more fragments remain. On success the
      last one read says none remain, and the signature is what it started as
      followed by 243 characters per reply read; on failure the last exchange
      is the one that failed. */
  lemma {:induction false} CollectSignatureChunks(index: uint32, signature: string, p: seq<Reply>)
    ensures var c := CollectSignature(index, signature, p);
      && 1 <= |c.sent|
      && (forall k :: 0 <= k < |c.sent| ==> c.sent[k] == SignCommand(index))
      && (forall k :: 0 <= k < |c.sent| - 1 ==> MoreToComeAt(p, k))
      && (c.result.Ok? ==>
            |c.sent| <= |p| && c.rest == p[|c.sent|..]
            && ReadableSign(p[|c.sent| - 1]) && !MoreToCome(p[|c.sent| - 1])
            && |c.result.value| == |signature| + SIGNATURE_CHUNK_LENGTH * |c.sent|
            && c.result.value[..|signature|] == signature)
      && (c.result.Err? ==> |c.sent| > |p| || !ReadableSign(p[|c.sent| - 1]))
    decreases |p|
  {
    var c := SignConv(index, p);
    if c.result.Ok? {
      assert p != [] && ReadableSign(p[0]);
      var chunk := c.result.value.signature;
      if c.result.value.fragmentsRemaining != 0 {
        var sig := signature + chunk;
        CollectSignatureChunks(index, sig, c.rest);
        var more := CollectSignature(index, sig, c.rest);
        var m := |more.sent|;
        assert c.rest == p[1..];
        assert MoreToComeAt(p, 0);
        forall k | 1 <= k < m ensures MoreToComeAt(p, k) {
          assert MoreToComeAt(c.rest, k - 1);
          assert p[1..][k - 1] == p[k];
        }
        if more.result.Ok? {
          assert more.result.value[..|signature|] == sig[..|signature|];
          assert p[1..][m - 1] == p[m];
          assert p[1..][m..] == p[m + 1..];
        } else if m <= |p[1..]| {
          assert p[1..][m - 1] == p[m];
        }
      }
    }
  }

  /** The signature collected is what it started as followed by the chunks
      of the replies read, in order. */
  lemma {:induction false} CollectSignatureConcatenates(index: uint32, signature: string, p: seq<Reply>)
    ensures var c := CollectSignature(index, signature, p);
      c.result.Ok? ==> |c.sent| <= |p| && c.result.value == signature + Chunks(p[..|c.sent|])
    decreases |p|
  {
    CollectSignatureChunks(index, signature, p);
    var c := SignConv(index, p);
    if c.result.Ok? {
      var chunk := c.result.value.signature;
      assert ChunkOf(p[0]) == chunk;
      if c.result.value.fragmentsRemaining != 0 {
        var sig := signature + chunk;
        CollectSignatureConcatenates(index, sig, c.rest);
        var more := CollectSignature(index, sig, c.rest);
        var m := |more.sent|;
        if more.result.Ok? {
          assert c.rest == p[1..];
          assert p[..m + 1][1..] == p[1..][..m];
          assert Chunks(p[..m + 1]) == chunk + Chunks(p[1..][..m]);
          assert sig + Chunks(p[1..][..m]) == signature + (chunk + Chunks(p[1..][..m]));
        }
      } else {
        assert p[..1][1..] == [];
      }
    }
  }

  /** `_getSignatureFragments(index)`: the collected signature cut into
      fragments (`None` when no fragment matched). */
  function SignatureFragmentsConv(index: uint32, p: seq<Reply>): Conv<Option<seq<string>>>
  {
    var c := CollectSignature(index, "", p);
    Conv(if c.result.Ok? then Ok(Match(c.result.value)) else Err(c.result.error), c.sent, c.rest)
  }

  // ---- putting the fragments into the bundle ----

  datatype Fill = Fill(entries: seq<Entry>, last: nat, fragments: seq<string>, stopped: bool)

  /** The inner loop of `_addSignatureFragmentsToBundle`: for j from `j` below
      `security`, step to the next transaction (stopping everything past the
      end) and, if it has the signer's address and value 0, give it the next
      fragment. */
  function FillMeta(E: seq<Entry>, i: nat, address: string, q: seq<string>, j: int, security: int): (r: Fill)
    requires i < |E|
    ensures |r.entries| == |E| && i <= r.last
    ensures !r.stopped ==> r.last < |E|
    decreases security - j
  {
    if j >= security then Fill(E, i, q, false)
    else if i + 1 >= |E| then Fill(E, i + 1, q, true)
    else
      var tx := E[i + 1];
      if tx.address == address && tx.value == 0 then
        var (f, q1) := Shift(q);
        FillMeta(E[i + 1 := tx.(signatureMessageFragment := f)], i + 1, address, q1, j + 1, security)
      else FillMeta(E, i + 1, address, q, j + 1, security)
  }

  /** The inner loop moves on by `security - j` transactions, or stops at the
      end of the bundle. */
  lemma {:induction false} FillMetaReach(E: seq<Entry>, i: nat, address: string,
                                         q: seq<string>, j: int, security: int)
    requires i < |E| && j <= security
    ensures var r := FillMeta(E, i, address, q, j, security);
      && (r.stopped <==> i + (security - j) >= |E|)
      && (!r.stopped ==> r.last == i + (security - j))
    decreases security - j
  {
    if j < security && i + 1 < |E| {
      var tx := E[i + 1];
      if tx.address == address && tx.value == 0 {
        var (f, q1) := Shift(q);
        FillMetaReach(E[i + 1 := tx.(signatureMessageFragment := f)], i + 1, address, q1, j + 1, security);
      } else {
        FillMetaReach(E, i + 1, address, q, j + 1, security);
      }
    }
  }

  /** The inner loop changes only signature fragments, and only of the
      transactions it passes that have the signer's address and value 0, each
      of which gets a fragment of `q` or none. */
  lemma {:induction false} FillMetaTouchesOnlyContinuations(E: seq<Entry>, i: nat, address: string,
                                                            q: seq<string>, j: int, security: int)
    requires i < |E| && j <= security
    ensures var r := FillMeta(E, i, address, q, j, security);
      && (forall k :: 0 <= k < |E| ==>
            r.entries[k] == E[k].(signatureMessageFragment := r.entries[k].signatureMessageFragment))
      && (forall k :: 0 <= k < |E| && (k <= i || k > r.last || E[k].address != address || E[k].value != 0) ==>
            r.entries[k] == E[k])
      && (forall k :: 0 <= k < |E| && r.entries[k] != E[k] ==>
            r.entries[k].signatureMessageFragment == None || r.entries[k].signatureMessageFragment.value in q)
    decreases security - j
  {
    if j < security && i + 1 < |E| {
      var tx := E[i + 1];
      if tx.address == address && tx.value == 0 {
        var (f, q1) := Shift(q);
        var E1 := E[i + 1 := tx.(signatureMessageFragment := f)];
        FillMetaTouchesOnlyContinuations(E1, i + 1, address, q1, j + 1, security);
        var r := FillMeta(E1, i + 1, address, q1, j + 1, security);
        forall k | 0 <= k < |E| && r.entries[k] != E[k]
          ensures r.entries[k].signatureMessageFragment == None || r.entries[k].signatureMessageFragment.value in q
        {
          if r.entries[k] == E1[k] {
            assert k == i + 1;
          } else if r.entries[k].signatureMessageFragment.Some? {
            assert r.entries[k].signatureMessageFragment.value in q1;
            assert q1 == q[1..];
          }
        }
      } else {
        FillMetaTouchesOnlyContinuations(E, i + 1, address, q, j + 1, security);
      }
    }
  }

  /** When the next `security - j` transactions are the signer's zero-value
      continuations and there are fragments enough, they receive the fragments
      in order, one each, and the rest of the fragments are left. */
  lemma {:induction false} FillMetaAssignsInOrder(E: seq<Entry>, i: nat, address: string,
                                                  q: seq<string>, j: int, security: int)
    requires i < |E| && j <= security && i + (security - j) < |E| && |q| >= security - j
    requires forall k :: i < k <= i + (security - j) ==> E[k].address == address && E[k].value == 0
    ensures var r := FillMeta(E, i, address, q, j, security);
      && !r.stopped && r.last == i + (security - j)
      && (forall k :: i < k <= i + (security - j) ==> r.entries[k].signatureMessageFragment == Some(q[k - i - 1]))
      && r.fragments == q[security - j..]
    decreases security - j
  {
    if j < security {
      var tx := E[i + 1];
      var (f, q1) := Shift(q);
      var E1 := E[i + 1 := tx.(signatureMessageFragment := f)];
      FillMetaAssignsInOrder(E1, i + 1, address, q1, j + 1, security);
      var r := FillMeta(E1, i + 1, address, q1, j + 1, security);
      FillMetaTouchesOnlyContinuations(E1, i + 1, address, q1, j + 1, security);
      assert r.entries[i + 1] == E1[i + 1];
      forall k | i < k <= i + (security - j)
        ensures r.entries[k].signatureMessageFragment == Some(q[k - i - 1])
      {
        if k > i + 1 {
          assert r.entries[k].signatureMessageFragment == Some(q1[k - (i + 1) - 1]);
        }
      }
    }
  }

  datatype Signing = Signing(entries: seq<Entry>, outcome: Outcome<Failure>, sent: seq<Command>, rest: seq<Reply>)

  /** The fragments of transaction `i`'s signature put in place: the first on
      transaction `i` itself, the others by `FillMeta`. */
  function SignAt(E: seq<Entry>, i: nat, fragments: seq<string>, security: int): (r: Fill)
    requires i < |E|
    ensures |r.entries| == |E| && i <= r.last
    ensures !r.stopped ==> r.last < |E|
  {
    var (f, q) := Shift(fragments);
    FillMeta(E[i := E[i].(signatureMessageFragment := f)], i, E[i].address, q, 1, security)
  }

  /** The outer loop of `_addSignatureFragmentsToBundle` from transaction `i`:
      each spending transaction (negative value) has its signature collected
      and its fragments put in place. */
  function SignFrom(E: seq<Entry>, i: nat, security: int, p: seq<Reply>): (r: Signing)
    requires |E| <= TWO_TO_32
    ensures |r.entries| == |E|
    decreases |E| - i
  {
    if i >= |E| then Signing(E, Pass, [], p)
    else if E[i].value >= 0 then SignFrom(E, i + 1, security, p)
    else
      var c := SignatureFragmentsConv(i, p);
      if c.result.Err? then Signing(E, Fail(c.result.error), c.sent, c.rest)
      else if c.result.value.None? then Signing(E, Fail(NoSignatureFragment), c.sent, c.rest)
      else
        var fill := SignAt(E, i, c.result.value.value, security);
        if fill.stopped then Signing(fill.entries, Pass, c.sent, c.rest)
        else
          var more := SignFrom(fill.entries, fill.last + 1, security, c.rest);
          Signing(more.entries, more.outcome, c.sent + more.sent, more.rest)
  }

  /** One spending transaction of `SignFrom` whose fragments all fit: signing
      goes on after the last transaction the fragments reached. */
  lemma SignFromStep(E: seq<Entry>, i: nat, security: int, p: seq<Reply>, c: Conv<Option<seq<string>>>,
                     fill: Fill)
    requires |E| <= TWO_TO_32 && i < |E| && E[i].value < 0
    requires c == SignatureFragmentsConv(i, p) && c.result.Ok? && c.result.value.Some?
    requires fill == SignAt(E, i, c.result.value.value, security) && !fill.stopped
    ensures SignFrom(E, i, security, p)
         == Signing(SignFrom(fill.entries, fill.last + 1, security, c.rest).entries,
                    SignFrom(fill.entries, fill.last + 1, security, c.rest).outcome,
                    c.sent + SignFrom(fill.entries, fill.last + 1, security, c.rest).sent,
                    SignFrom(fill.entries, fill.last + 1, security, c.rest).rest)
  {
  }

  /** A spending transaction in last place (the remainder of a request whose
      inputs fall short of the payment) is signed too: it receives the first
      fragment, the rest are dropped as the inner loop returns at the end of
      the bundle, and signing passes. */
  lemma SignLastSpendingTransaction(E: seq<Entry>, security: int, p: seq<Reply>)
    requires 1 <= |E| <= TWO_TO_32 && E[|E| - 1].value < 0
    ensures var i := |E| - 1;
      var c := SignatureFragmentsConv(i, p);
      var r := SignFrom(E, i, security, p);
      c.result.Ok? && c.result.value.Some? ==>
        && r.outcome == Pass && r.sent == c.sent && r.rest == c.rest
        && r.entries == E[i := E[i].(signatureMessageFragment := Shift(c.result.value.value).0)]
  {
  }

  /** `F` differs from `E` in signature fragments only. */
  predicate OnlyFragmentsDiffer(E: seq<Entry>, F: seq<Entry>)
  {
    |F| == |E|
    && forall k :: 0 <= k < |E| ==> F[k] == E[k].(signatureMessageFragment := F[k].signatureMessageFragment)
  }

  /** `F` agrees with `E` on every transaction before `i` and every transaction
      with a positive value. */
  predicate KeepsPrefixAndPayments(E: seq<Entry>, F: seq<Entry>, i: nat)
    requires |F| == |E|
  {
    forall k :: 0 <= k < |E| && (k < i || E[k].value > 0) ==> F[k] == E[k]
  }

  lemma NothingChanged(E: seq<Entry>, i: nat)
    ensures OnlyFragmentsDiffer(E, E) && KeepsPrefixAndPayments(E, E, i)
  {
  }

  lemma OnlyFragmentsDifferTransitive(A: seq<Entry>, B: seq<Entry>, C: seq<Entry>)
    requires OnlyFragmentsDiffer(A, B) && OnlyFragmentsDiffer(B, C)
    ensures OnlyFragmentsDiffer(A, C)
  {
    forall k | 0 <= k < |A| ensures C[k] == A[k].(signatureMessageFragment := C[k].signatureMessageFragment) {
      assert B[k] == A[k].(signatureMessageFragment := B[k].signatureMessageFragment);
    }
  }

  lemma KeepsPrefixAndPaymentsTransitive(A: seq<Entry>, B: seq<Entry>, C: seq<Entry>, i: nat, j: nat)
    requires |A| == |B| == |C| && i <= j
    requires KeepsPrefixAndPayments(A, B, i) && KeepsPrefixAndPayments(B, C, j)
    ensures KeepsPrefixAndPayments(A, C, i)
  {
    forall k | 0 <= k < |A| && (k < i || A[k].value > 0) ensures C[k] == A[k] {
      assert B[k] == A[k];
    }
  }

  lemma SignAtChangesOnlyFragments(E: seq<Entry>, i: nat, fragments: seq<string>, security: int)
    requires i < |E| && E[i].value < 0 && 1 <= security
    ensures var r := SignAt(E, i, fragments, security);
      OnlyFragmentsDiffer(E, r.entries) && KeepsPrefixAndPayments(E, r.entries, i)
  {
    var (f, q) := Shift(fragments);
    var E1 := E[i := E[i].(signatureMessageFragment := f)];
    FillMetaTouchesOnlyContinuations(E1, i, E[i].address, q, 1, security);
  }

  /** The spending transaction itself receives the first fragment of its
      signature (none when the device sent none); every other transaction
      before the inner loop's last step keeps its fragment. */
  lemma SignAtGivesHeadFirstFragment(E: seq<Entry>, i: nat, fragments: seq<string>, security: int)
    requires i < |E|
    ensures var r := SignAt(E, i, fragments, security);
      && r.entries[i] == E[i].(signatureMessageFragment := Shift(fragments).0)
      && (forall k :: 0 <= k < i ==> r.entries[k] == E[k])
  {
    var (f, q) := Shift(fragments);
    var E1 := E[i := E[i].(signatureMessageFragment := f)];
    if 1 <= security {
      FillMetaTouchesOnlyContinuations(E1, i, E[i].address, q, 1, security);
    }
  }

  /** Signing changes nothing but signature fragments and leaves every
      transaction before `i` and every transaction with a positive value as it
      was. */
  lemma SignFromStepChangesOnlyFragments(E: seq<Entry>, i: nat, security: int, p: seq<Reply>,
                                         c: Conv<Option<seq<string>>>, fill: Fill)
    requires |E| <= TWO_TO_32 && i < |E| && E[i].value < 0 && 1 <= security
    requires c == SignatureFragmentsConv(i, p) && c.result.Ok? && c.result.value.Some?
    requires fill == SignAt(E, i, c.result.value.value, security) && !fill.stopped
    requires var more := SignFrom(fill.entries, fill.last + 1, security, c.rest);
      OnlyFragmentsDiffer(fill.entries, more.entries)
      && KeepsPrefixAndPayments(fill.entries, more.entries, fill.last + 1)
    ensures var r := SignFrom(E, i, security, p);
      OnlyFragmentsDiffer(E, r.entries) && KeepsPrefixAndPayments(E, r.entries, i)
  {
    SignAtChangesOnlyFragments(E, i, c.result.value.value, security);
    SignFromStep(E, i, security, p, c, fill);
    var more := SignFrom(fill.entries, fill.last + 1, security, c.rest);
    OnlyFragmentsDifferTransitive(E, fill.entries, more.entries);
    KeepsPrefixAndPaymentsTransitive(E, fill.entries, more.entries, i, fill.last + 1);
  }

  lemma {:induction false} SignFromChangesOnlyFragments(E: seq<Entry>, i: nat, security: int, p: seq<Reply>)
    requires |E| <= TWO_TO_32 && 1 <= security
    ensures var r := SignFrom(E, i, security, p);
      OnlyFragmentsDiffer(E, r.entries) && KeepsPrefixAndPayments(E, r.entries, i)
    decreases |E| - i, 1
  {
    var r := SignFrom(E, i, security, p);
    if i >= |E| {
      assert r.entries == E;
      NothingChanged(E, i);
    } else if E[i].value >= 0 {
      SignFromChangesOnlyFragments(E, i + 1, security, p);
      assert r == SignFrom(E, i + 1, security, p);
      KeepsPrefixAndPaymentsTransitive(E, E, r.entries, i, i + 1);
    } else {
      SpendChangesOnlyFragments(E, i, security, p);
    }
  }

  /** The case of `SignFromChangesOnlyFragments` where transaction `i` spends. */
  lemma {:induction false} SpendChangesOnlyFragments(E: seq<Entry>, i: nat, security: int, p: seq<Reply>)
    requires |E| <= TWO_TO_32 && 1 <= security && i < |E| && E[i].value < 0
    ensures var r := SignFrom(E, i, security, p);
      OnlyFragmentsDiffer(E, r.entries) && KeepsPrefixAndPayments(E, r.entries, i)
    decreases |E| - i, 0
  {
    var r := SignFrom(E, i, security, p);
    var c := SignatureFragmentsConv(i, p);
    if c.result.Err? || c.result.value.None? {
      assert r.entries == E;
      NothingChanged(E, i);
    } else {
      var fill := SignAt(E, i, c.result.value.value, security);
      SignAtChangesOnlyFragments(E, i, c.result.value.value, security);
      if fill.stopped {
        assert r.entries == fill.entries;
      } else {
        SignFromChangesOnlyFragments(fill.entries, fill.last + 1, security, c.rest);
        SignFromStepChangesOnlyFragments(E, i, security, p, c, fill);
      }
    }
  }

  predicate AllOfKind(cmds: seq<Command>, ins: byte)
  {
    forall k :: 0 <= k < |cmds| ==> cmds[k].ins == ins
  }

  lemma AllOfKindConcat(a: seq<Command>, b: seq<Command>, ins: byte)
    requires AllOfKind(a, ins) && AllOfKind(b, ins)
    ensures AllOfKind(a + b, ins)
  {
    forall k | 0 <= k < |a + b| ensures (a + b)[k].ins == ins {
      if k >= |a| {
        assert (a + b)[k] == b[k - |a|];
      }
    }
  }

  /** Signing sends SIGN commands only. */
  lemma {:induction false} SignFromSendsOnlySign(E: seq<Entry>, i: nat, security: int, p: seq<Reply>)
    requires |E| <= TWO_TO_32
    ensures AllOfKind(SignFrom(E, i, security, p).sent, INS_SIGN)
    decreases |E| - i
  {
    if i < |E| {
      if E[i].value >= 0 {
        SignFromSendsOnlySign(E, i + 1, security, p);
        assert SignFrom(E, i, security, p) == SignFrom(E, i + 1, security, p);
      } else {
        CollectSignatureChunks(i, "", p);
        var c := SignatureFragmentsConv(i, p);
        assert AllOfKind(c.sent, INS_SIGN);
        if c.result.Ok? && c.result.value.Some? {
          var fill := SignAt(E, i, c.result.value.value, security);
          if !fill.stopped {
            SignFromSendsOnlySign(fill.entries, fill.last + 1, security, c.rest);
            var more := SignFrom(fill.entries, fill.last + 1, security, c.rest);
            AllOfKindConcat(c.sent, more.sent, INS_SIGN);
          }
        }
      }
    }
  }

  // ---- submitting the bundle ----

  const NO_TX_RESULT: TxResult := TxResult(0, "")

  /** The `_transaction` arguments `_signBundle` takes from a bundle entry. */
  function TxOf(tx: Entry, m: map<string, uint32>): TxInput
  {
    TxInput(tx.address, KeyIndexFor(m, tx.address), tx.value, tx.obsoleteTag,
            tx.currentIndex, tx.lastIndex, tx.timestamp)
  }

  /** The loop of `_signBundle` from entry `k`: one TX command per entry,
      keeping the last answer (`last` before the first). */
  function SubmitFrom(E: seq<Entry>, k: nat, m: map<string, uint32>, s: Session, last: TxResult,
                      p: seq<Reply>): Conv<TxResult>
    requires Active(s)
    decreases |E| - k
  {
    if k >= |E| then Conv(Ok(last), [], p)
    else
      var c := TransactionConv(s, TxOf(E[k], m), p);
      if c.result.Err? then Conv(Err(c.result.error), c.sent, c.rest)
      else
        var more := SubmitFrom(E, k + 1, m, s, c.result.value, c.rest);
        Conv(more.result, c.sent + more.sent, more.rest)
  }

  lemma EntryCommandsPrepend(E: seq<Entry>, k: nat, m: map<string, uint32>, s: Session,
                             first: seq<Command>, rest: seq<Command>)
    requires Active(s) && k < |E| && |rest| < |E| - k && first == [TxCommand(s, TxOf(E[k], m))]
    requires forall n :: 0 <= n < |rest| ==> rest[n] == TxCommand(s, TxOf(E[k + 1 + n], m))
    ensures forall n :: 0 <= n < |first + rest| ==> (first + rest)[n] == TxCommand(s, TxOf(E[k + n], m))
  {
    forall n | 0 <= n < |first + rest| ensures (first + rest)[n] == TxCommand(s, TxOf(E[k + n], m)) {
      if n > 0 {
        assert (first + rest)[n] == rest[n - 1];
        assert k + 1 + (n - 1) == k + n;
      }
    }
  }

  /** A submission from entry `k` sends at most one command per remaining
      entry, at least one when an entry remains, and exactly one per entry
      when it succeeds. */
  lemma {:induction false} SubmitFromSendsOnePerEntry(E: seq<Entry>, k: nat, m: map<string, uint32>, s: Session,
                                                      last: TxResult, p: seq<Reply>)
    requires Active(s) && k <= |E|
    ensures var c := SubmitFrom(E, k, m, s, last, p);
      && |c.sent| <= |E| - k
      && (k < |E| ==> 1 <= |c.sent|)
      && (c.result.Ok? ==> |c.sent| == |E| - k)
    decreases |E| - k
  {
    if k < |E| {
      var c := TransactionConv(s, TxOf(E[k], m), p);
      SingleExchanges(s, 0, false, TxOf(E[k], m), p);
      if c.result.Ok? {
        SubmitFromSendsOnePerEntry(E, k + 1, m, s, c.result.value, c.rest);
      }
    }
  }

  /** Every entry from `k` on is sent, in order, one TX command each, until
      the first failure. */
  lemma {:induction false} SubmitFromSendsEveryEntry(E: seq<Entry>, k: nat, m: map<string, uint32>, s: Session,
                                                     last: TxResult, p: seq<Reply>)
    requires Active(s) && k <= |E|
    ensures var c := SubmitFrom(E, k, m, s, last, p);
      && |c.sent| <= |E| - k
      && (forall n :: 0 <= n < |c.sent| ==> c.sent[n] == TxCommand(s, TxOf(E[k + n], m)))
    decreases |E| - k
  {
    if k < |E| {
      var c := TransactionConv(s, TxOf(E[k], m), p);
      assert c.sent == [TxCommand(s, TxOf(E[k], m))] by {
        SingleExchanges(s, 0, false, TxOf(E[k], m), p);
      }
      if c.result.Ok? {
        var more := SubmitFrom(E, k + 1, m, s, c.result.value, c.rest);
        assert SubmitFrom(E, k, m, s, last, p) == Conv(more.result, c.sent + more.sent, more.rest);
        SubmitFromSendsEveryEntry(E, k + 1, m, s, c.result.value, c.rest);
        EntryCommandsPrepend(E, k, m, s, c.sent, more.sent);
      }
    }
  }

  /** A submission that succeeds consumes one reply per entry, and the answer
      kept is the device's answer to the last entry (`last` when there was
      none). */
  lemma {:induction false} SubmitFromKeepsLastAnswer(E: seq<Entry>, k: nat, m: map<string, uint32>, s: Session,
                                                     last: TxResult, p: seq<Reply>)
    requires Active(s) && k <= |E|
    ensures var c := SubmitFrom(E, k, m, s, last, p);
      c.result.Ok? ==>
        && |E| - k <= |p| && c.rest == p[|E| - k..]
        && (k == |E| ==> c.result.value == last)
        && (k < |E| ==> p[|E| - k - 1].Response? && ReadTxResponse(p[|E| - k - 1].data) == c.result)
    decreases |E| - k
  {
    if k < |E| {
      var c := TransactionConv(s, TxOf(E[k], m), p);
      if c.result.Ok? {
        SubmitFromKeepsLastAnswer(E, k + 1, m, s, c.result.value, c.rest);
        assert c.rest == p[1..];
        var more := SubmitFrom(E, k + 1, m, s, c.result.value, c.rest);
        if more.result.Ok? && k + 1 < |E| {
          assert c.rest[|E| - (k + 1) - 1] == p[|E| - k - 1];
        }
      }
    }
  }

  /** The TX commands for a finalized bundle: p1 is 0x00 for the first
      transaction and 0x80 after it, the seed fields go with the first one in
      the current layout only, and the long user-interaction timeout is used
      for the last one only. */
  lemma TxCommandsOfFinalizedBundle(E: seq<Entry>, m: map<string, uint32>, s: Session, n: nat)
    requires Active(s) && n < |E|
    requires forall k :: 0 <= k < |E| ==> E[k].currentIndex == k && E[k].lastIndex == |E| - 1
    ensures var cmd := TxCommand(s, TxOf(E[n], m));
      && cmd.ins == INS_TX
      && (cmd.p1 == 0x00 <==> n == 0)
      && (cmd.timeout == TIMEOUT_CMD_USER_INTERACTION <==> n == |E| - 1)
      && (|cmd.data| > TX_FIELDS_LENGTH <==> n == 0 && s.dialect == Current)
  {
    TxPayloadLayout(s.dialect, s.security, s.path, TxOf(E[n], m));
  }

  /** `_signBundle`: submit every entry, check the device finalized the bundle
      with the same hash, then sign. */
  function SignBundleConv(E: seq<Entry>, m: map<string, uint32>, s: Session, p: seq<Reply>): (r: Signing)
    requires Active(s) && |E| <= TWO_TO_32
    ensures |r.entries| == |E|
  {
    var c := SubmitFrom(E, 0, m, s, NO_TX_RESULT, p);
    if c.result.Err? then Signing(E, Fail(c.result.error), c.sent, c.rest)
    else if c.result.value.finalized == 0 then Signing(E, Fail(NotFinalized), c.sent, c.rest)
    else if c.result.value.bundleHash != E[0].bundle then Signing(E, Fail(WrongBundleHash), c.sent, c.rest)
    else
      var sig := SignFrom(E, 0, s.security, c.rest);
      Signing(sig.entries, sig.outcome, c.sent + sig.sent, sig.rest)
  }

  lemma SubmitFromSendsOnlyTx(E: seq<Entry>, m: map<string, uint32>, s: Session, p: seq<Reply>)
    requires Active(s)
    ensures AllOfKind(SubmitFrom(E, 0, m, s, NO_TX_RESULT, p).sent, INS_TX)
  {
    SubmitFromSendsEveryEntry(E, 0, m, s, NO_TX_RESULT, p);
  }

  /** No signing starts unless the device's answer to the last TX command says
      finalized, with the bundle's own hash: otherwise only TX commands go out
      and the bundle is unchanged. */
  lemma SignBundleChecksHashFirst(E: seq<Entry>, m: map<string, uint32>, s: Session, p: seq<Reply>)
    requires Active(s) && 0 < |E| <= TWO_TO_32
    ensures var r := SignBundleConv(E, m, s, p);
      var c := SubmitFrom(E, 0, m, s, NO_TX_RESULT, p);
      && (c.result.Ok? && c.result.value.finalized == 0 ==> r.outcome == Fail(NotFinalized))
      && (c.result.Ok? && c.result.value.finalized != 0 && c.result.value.bundleHash != E[0].bundle ==>
            r.outcome == Fail(WrongBundleHash))
      && (c.result.Ok? && (c.result.value.finalized == 0 || c.result.value.bundleHash != E[0].bundle) ==>
            r.entries == E && r.sent == c.sent && AllOfKind(r.sent, INS_TX))
  {
    SubmitFromSendsOnlyTx(E, m, s, p);
  }

  /** Signing a non-empty bundle always sends its first transaction. */
  lemma SignBundleSendsFirstTransaction(E: seq<Entry>, m: map<string, uint32>, s: Session, p: seq<Reply>)
    requires Active(s) && 0 < |E| <= TWO_TO_32
    ensures var r := SignBundleConv(E, m, s, p);
      1 <= |r.sent| && r.sent[0] == TxCommand(s, TxOf(E[0], m))
  {
    var c := SubmitFrom(E, 0, m, s, NO_TX_RESULT, p);
    SubmitFromSendsOnePerEntry(E, 0, m, s, NO_TX_RESULT, p);
    SubmitFromSendsEveryEntry(E, 0, m, s, NO_TX_RESULT, p);
    var r := SignBundleConv(E, m, s, p);
    if c.result.Ok? && c.result.value.finalized != 0 && c.result.value.bundleHash == E[0].bundle {
      var sig := SignFrom(E, 0, s.security, c.rest);
      assert r.sent == c.sent + sig.sent;
    } else {
      assert r.sent == c.sent;
    }
  }

  /** A bundle that signs went out whole, entry by entry, before the first SIGN
      command, and came back changed in signature fragments only, its
      positive-value transactions untouched. */
  lemma SignBundleSubmitsThenSigns(E: seq<Entry>, m: map<string, uint32>, s: Session, p: seq<Reply>)
    requires Active(s) && 0 < |E| <= TWO_TO_32
    ensures var r := SignBundleConv(E, m, s, p);
      r.outcome.Pass? ==>
        && |r.sent| >= |E|
        && (forall k :: 0 <= k < |E| ==> r.sent[k] == TxCommand(s, TxOf(E[k], m)))
        && AllOfKind(r.sent[|E|..], INS_SIGN)
        && OnlyFragmentsDiffer(E, r.entries) && KeepsPrefixAndPayments(E, r.entries, 0)
  {
    var c := SubmitFrom(E, 0, m, s, NO_TX_RESULT, p);
    var r := SignBundleConv(E, m, s, p);
    if r.outcome.Pass? {
      assert c.result.Ok? && c.result.value.finalized != 0 && c.result.value.bundleHash == E[0].bundle;
      var sig := SignFrom(E, 0, s.security, c.rest);
      assert r == Signing(sig.entries, sig.outcome, c.sent + sig.sent, sig.rest);
      assert |c.sent| == |E| by {
        SubmitFromSendsOnePerEntry(E, 0, m, s, NO_TX_RESULT, p);
      }
      assert forall k :: 0 <= k < |c.sent| ==> c.sent[k] == TxCommand(s, TxOf(E[0 + k], m)) by {
        SubmitFromSendsEveryEntry(E, 0, m, s, NO_TX_RESULT, p);
      }
      assert OnlyFragmentsDiffer(E, sig.entries) && KeepsPrefixAndPayments(E, sig.entries, 0) by {
        SignFromChangesOnlyFragments(E, 0, s.security, c.rest);
      }
      assert AllOfKind(sig.sent, INS_SIGN) by {
        SignFromSendsOnlySign(E, 0, s.security, c.rest);
      }
      SubmittedThenSigned(E, m, s, c.sent, sig, r);
    }
  }

  /** The commands of a submission of every entry followed by a signing. */
  lemma SubmittedThenSigned(E: seq<Entry>, m: map<string, uint32>, s: Session, sent: seq<Command>,
                            sig: Signing, r: Signing)
    requires Active(s) && |sent| == |E|
    requires forall k :: 0 <= k < |sent| ==> sent[k] == TxCommand(s, TxOf(E[0 + k], m))
    requires AllOfKind(sig.sent, INS_SIGN)
    requires r == Signing(sig.entries, sig.outcome, sent + sig.sent, sig.rest)
    ensures |r.sent| >= |E|
    ensures forall k :: 0 <= k < |E| ==> r.sent[k] == TxCommand(s, TxOf(E[k], m))
    ensures AllOfKind(r.sent[|E|..], INS_SIGN)
  {
    assert r.sent[|E|..] == sig.sent;
    forall k | 0 <= k < |E| ensures r.sent[k] == TxCommand(s, TxOf(E[k], m)) {
      assert r.sent[k] == sent[k];
    }
  }

  // ---- signTransaction ----

  function Reversed<T>(xs: seq<T>): (r: seq<T>)
    ensures |r| == |xs|
    ensures forall k :: 0 <= k < |xs| ==> r[k] == xs[|xs| - 1 - k]
  {
    if xs == [] then [] else Reversed(xs[1..]) + [xs[0]]
  }

  function Trytes(E: seq<Entry>, trytes: Entry -> string): (r: seq<string>)
    ensures |r| == |E| && forall k :: 0 <= k < |E| ==> r[k] == trytes(E[k])
  {
    seq(|E|, k requires 0 <= k < |E| => trytes(E[k]))
  }

  /** The answer lists the transactions' trytes from the last transaction to
      the first. */
  lemma TrytesLastFirst(E: seq<Entry>, trytes: Entry -> string)
    ensures var r := Reversed(Trytes(E, trytes));
      |r| == |E| && forall k :: 0 <= k < |E| ==> r[k] == trytes(E[|E| - 1 - k])
  {
  }

  /** The request `_signTransaction` works on, if the host-side checks pass. */
  function Prepare(s: Session, ext: External, transfers: seq<Transfer>, inputs: seq<Input>,
                   remainder: Option<Remainder>): (r: Result<Request, Failure>)
    requires WellFormed(s)
    ensures r.Ok? ==> SupportedShape(r.value)
  {
    if s.security == 0 then Err(SeedNotInitialized)
    else match CheckRequest(ext, transfers, inputs, remainder)
      case Err(e) => Err(e)
      case Ok(req) =>
        AcceptedRequestBalances(ext, transfers, inputs, remainder);
        var n := Normalise(s.security, req);
        if n.Ok? then NormaliseKeepsShape(s.security, req); n else n
  }

  /** `_signTransaction(transfers, inputs, remainder)` at time `timestamp`. */
  function SignRequestConv(s: Session, ext: External, req: Request, timestamp: uint32,
                           p: seq<Reply>): Conv<seq<string>>
    requires Active(s) && |req.transfers| <= MAX_TRANSFERS && 1 <= |req.inputs| <= MAX_INPUTS
  {
    match Normalise(s.security, req)
    case Err(e) => Conv(Err(e), [], p)
    case Ok(n) =>
      NormaliseKeepsShape(s.security, req);
      var E := BuildBundle(n, timestamp, ext.bundleHash);
      var sb := SignBundleConv(E, KeyIndices(n.inputs, n.remainder), s, p);
      if sb.outcome.Fail? then Conv(Err(sb.outcome.error), sb.sent, sb.rest)
      else Conv(Ok(Reversed(Trytes(sb.entries, ext.transactionTrytes))), sb.sent, sb.rest)
  }

  /** A normalised request is signed as the bundle built from it. */
  lemma SignRequestSigns(s: Session, ext: External, req: Request, timestamp: uint32, p: seq<Reply>,
                         n: Request, sb: Signing)
    requires Active(s) && |req.transfers| <= MAX_TRANSFERS && 1 <= |req.inputs| <= MAX_INPUTS
    requires Normalise(s.security, req) == Ok(n) && SupportedShape(n)
    requires sb == SignBundleConv(BuildBundle(n, timestamp, ext.bundleHash), KeyIndices(n.inputs, n.remainder), s, p)
    ensures sb.outcome.Fail? ==>
      SignRequestConv(s, ext, req, timestamp, p) == Conv(Err(sb.outcome.error), sb.sent, sb.rest)
    ensures sb.outcome.Pass? ==>
      SignRequestConv(s, ext, req, timestamp, p)
        == Conv(Ok(Reversed(Trytes(sb.entries, ext.transactionTrytes))), sb.sent, sb.rest)
  {
  }

  /** `signTransaction(transfers, inputs, remainder)` at time `timestamp`. */
  function SignTransactionConv(s: Session, ext: External, transfers: seq<Transfer>, inputs: seq<Input>,
                               remainder: Option<Remainder>, timestamp: uint32, p: seq<Reply>): Conv<seq<string>>
    requires WellFormed(s)
  {
    if s.security == 0 then Conv(Err(SeedNotInitialized), [], p)
    else match CheckRequest(ext, transfers, inputs, remainder)
      case Err(e) => Conv(Err(e), [], p)
      case Ok(req) =>
        AcceptedRequestBalances(ext, transfers, inputs, remainder);
        var c := SignRequestConv(s, ext, req, timestamp, p);
        if c.result.Err? then c
        else
          var reset := ResetConv(true, c.rest);
          Conv(if reset.result.Ok? then c.result else Err(reset.result.error), c.sent + reset.sent, reset.rest)
  }

  /** Once the host-side checks pass, the call is the bundle's signing
      followed, when that succeeds, by a partial reset. */
  lemma SignTransactionSigns(s: Session, ext: External, transfers: seq<Transfer>, inputs: seq<Input>,
                             remainder: Option<Remainder>, timestamp: uint32, p: seq<Reply>)
    requires WellFormed(s) && Prepare(s, ext, transfers, inputs, remainder).Ok?
    ensures var n := Prepare(s, ext, transfers, inputs, remainder).value;
      var E := BuildBundle(n, timestamp, ext.bundleHash);
      var sb := SignBundleConv(E, KeyIndices(n.inputs, n.remainder), s, p);
      var c := SignTransactionConv(s, ext, transfers, inputs, remainder, timestamp, p);
      var reset := ResetConv(true, sb.rest);
      && (sb.outcome.Fail? ==> c == Conv(Err(sb.outcome.error), sb.sent, sb.rest))
      && (sb.outcome.Pass? ==>
            && c.sent == sb.sent + reset.sent && c.rest == reset.rest
            && (c.result.Ok? <==> reset.result.Ok?)
            && (c.result.Ok? ==> c.result.value == Reversed(Trytes(sb.entries, ext.transactionTrytes))))
  {
  }

  /** The host-side checks come before any command: the call sends nothing
      exactly when they fail. */
  lemma SignTransactionChecksFirst(s: Session, ext: External, transfers: seq<Transfer>, inputs: seq<Input>,
                                   remainder: Option<Remainder>, timestamp: uint32, p: seq<Reply>)
    requires WellFormed(s)
    ensures var c := SignTransactionConv(s, ext, transfers, inputs, remainder, timestamp, p);
      var prep := Prepare(s, ext, transfers, inputs, remainder);
      && (c.sent == [] <==> prep.Err?)
      && (prep.Err? ==> c.result == Err(prep.error) && c.rest == p)
  {
    var prep := Prepare(s, ext, transfers, inputs, remainder);
    if prep.Ok? {
      var E := BuildBundle(prep.value, timestamp, ext.bundleHash);
      var m := KeyIndices(prep.value.inputs, prep.value.remainder);
      SignBundleSendsFirstTransaction(E, m, s, p);
      SignTransactionSigns(s, ext, transfers, inputs, remainder, timestamp, p);
    }
  }

  /** On success the answer has one trytes string per bundle transaction, the
      signed bundle read from its last transaction to its first, and the final
      command is a partial reset. */
  lemma SignTransactionAnswer(s: Session, ext: External, transfers: seq<Transfer>, inputs: seq<Input>,
                              remainder: Option<Remainder>, timestamp: uint32, p: seq<Reply>)
    requires WellFormed(s)
    ensures var c := SignTransactionConv(s, ext, transfers, inputs, remainder, timestamp, p);
      var prep := Prepare(s, ext, transfers, inputs, remainder);
      c.result.Ok? ==>
        && prep.Ok?
        && var E := BuildBundle(prep.value, timestamp, ext.bundleHash);
           var signed := SignBundleConv(E, KeyIndices(prep.value.inputs, prep.value.remainder), s, p).entries;
           && |c.result.value| == |E|
           && (forall k :: 0 <= k < |E| ==> c.result.value[k] == ext.transactionTrytes(signed[|E| - 1 - k]))
           && c.sent != [] && c.sent[|c.sent| - 1] == ResetCommand(true)
  {
    var c := SignTransactionConv(s, ext, transfers, inputs, remainder, timestamp, p);
    var prep := Prepare(s, ext, transfers, inputs, remainder);
    if prep.Ok? {
      SignTransactionSigns(s, ext, transfers, inputs, remainder, timestamp, p);
      var E := BuildBundle(prep.value, timestamp, ext.bundleHash);
      var sb := SignBundleConv(E, KeyIndices(prep.value.inputs, prep.value.remainder), s, p);
      if c.result.Ok? {
        assert sb.outcome.Pass?;
        assert ResetConv(true, sb.rest).sent == [ResetCommand(true)];
        var answer := c.result.value;
        assert answer == Reversed(Trytes(sb.entries, ext.transactionTrytes));
        TrytesLastFirst(sb.entries, ext.transactionTrytes);
        assert |sb.entries| == |E|;
        assert |answer| == |E|;
        assert forall k :: 0 <= k < |E| ==> answer[k] == ext.transactionTrytes(sb.entries[|E| - 1 - k]);
      }
    }
  }
}
