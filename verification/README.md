# Ledger IOTA host driver — a Dafny model

This project models the `Iota` class of the Ledger IOTA host driver
(`dist/iota.js`). It covers the part that talks to the hardware wallet and
signs bundles:

- the session state: `security`, `pathArray` and the struct dialect chosen by
  `setActiveSeed`;
- the fixed little-endian payload and response layouts of the SET_SEED,
  PUBKEY, SIGN, TX, GET_APP_CONFIG and RESET commands, in the legacy and the
  current dialect;
- the translation of transport errors into the driver's messages
  (`getIOTAStatusMessage` and the catch block of `_sendCommand`);
- the signing orchestration:
  - the host-side checks of `signTransaction`;
  - the normalisation and bundle building of `_signTransaction`;
  - the TX round of `_signBundle` and its finalized and hash checks;
  - the SIGN loop of `_getSignatureFragments`;
  - the in-place fragment assignment of `_addSignatureFragmentsToBundle`;
  - the reversed trytes answer.

The device is a scripted oracle, the class `Transport.Device`. It holds the
replies it will give (`pending`) and a log of every command it received
(`sent`). Once the script is used up it answers like an unplugged device: a
transport error with id `U2F_5` and no status code. This bounds the driver's
`while (true)` SIGN loop.

Every device conversation also has a pure reference definition in module
`Conversation`. `Conv(result, sent, rest)` gives the answer, the commands
sent and the replies left unread. Each method of `Ledger.Iota` is proved to
behave exactly as its conversation says: same answer, same commands in the
same order, same replies consumed, same new driver state. The properties of
the driver are proved as lemmas about those conversations.

Modules, in dependency order:

- `Wrappers`: `Option`, `Result`, `Outcome`.
- `Bytes`: little-endian integers and `chars` fields.
- `Status`: the status-word table and the decorated message.
- `Errors`: every error the driver throws, with its message.
- `Codec`: the payload and response layouts.
- `Transport`: the scripted device and `_sendCommand`.
- `Bundle`: transfers, inputs, the request checks, normalisation, the
  key-index table and bundle building.
- `Fragments`: `signature.match(/.{2187}/g)` and `Array.prototype.shift`.
- `Version`: the version string.
- `Conversation`: the reference conversations and their lemmas.
- `Signing`: where the signatures end up when the bundle `_signTransaction`
  builds is signed against a device that delivers one signature per input.
- `Ledger`: the `Iota` class.

Two behaviours of the code are modelled as written:

- **The dialect switch is sticky.** `setActiveSeed` swaps in the legacy
  builders when the app's minor version is below 5. It never swaps the
  current ones back, so once a session has gone legacy it stays legacy
  (`Conversation.ActivateChoosesDialect`).
- **The duplicate-address check catches only the remainder.** It compares
  `set.length` with a count, but a JavaScript `Set` has no `length`, so that
  comparison never holds. The check fires only when the remainder address is
  also a transfer or input address (`Bundle.DuplicateCheckSeesOnlyRemainder`).
  Two inputs with the same address pass (`Bundle.DuplicateInputsPass`).

## Model

| member | source | states |
|---|---|---|
| Status.TimeoutWinsOverStatusCode | dist/iota.js:81-85 | An error with id `U2F_5` is translated to the timeout message whatever its status code |
| Status.StatusTextDefinedExactlyOnKnownWords | dist/iota.js:87-143 | A status word has a fixed text exactly when it is one of the 19 words of the switch |
| Status.KnownWordIgnoresTransportMessage | dist/iota.js:87-143 | For a known word and no timeout id, the message is that word's fixed text, independent of the transport's own message |
| Status.UnknownWordKeepsTransportMessage | dist/iota.js:144-146 | Any other word, with no timeout id, yields the transport's own message |
| Status.HexRoundTrip | dist/iota.js:1210 | `statusCode.toString(16)` reads back as the status code |
| Status.HexDigitsOnly | dist/iota.js:1210 | `toString(16)` yields lower-case hexadecimal digits only, with no leading zero |
| Status.DeviceErrorMessageCarriesStatusCode | dist/iota.js:1205-1213 | The re-thrown message is `Ledger device: ` plus the translated text, then ` (0x<hex>)` exactly when the status code is non-zero, and that hex reads back as the code |
| Transport.UnreachableDeviceMessage | dist/iota.js:1205-1213 | A device that no longer answers fails with `Ledger device: ` plus the timeout message and no status-code suffix |
| Transport.Device.Exchange | dist/iota.js:1193-1195 | One exchange logs the command with its timeout and consumes exactly the next reply (the U2F timeout when none is left) |
| Bytes.U32RoundTrip | dist/iota.js:635-637 | A `word32Ule` field is 4 bytes that read back as the value |
| Bytes.ReadU32RoundTrip | dist/iota.js:635-637 | Every 4 bytes are the `word32Ule` encoding of the value they read as |
| Bytes.I64RoundTrip | dist/iota.js:673 | A `word64Sle` field reads back as any signed 64-bit value |
| Bytes.ReadI8 | dist/iota.js:646 | A `word8Sle` field reads as a value in -128..127 |
| Bytes.CharsRoundTrip | dist/iota.js:673 | A `chars` field of a byte string's own length reads back as the string |
| Bytes.ReadCharsIsByteString | dist/iota.js:606 | A `chars` field read from a response is a byte string that re-encodes to the same bytes |
| Codec.U32sRoundTrip | dist/iota.js:522 | The `pathArray` of `word32Ule` values reads back as the path |
| Codec.SeedFieldsRoundTrip | dist/iota.js:520-531 | The seed fields (u8 security, u32 path length, the path) parse back as the security level, the path and whatever follows |
| Codec.PubkeyPayloadLayout | dist/iota.js:566-590 | The legacy PUBKEY payload is the u32 index alone; the current one is the seed fields followed by the index |
| Codec.TxFieldsRoundTrip | dist/iota.js:670-687 | The TX fields are 132 bytes in the order address, address index, value, tag, tx index, tx length, time, and read back as the input |
| Codec.TxPayloadLayout | dist/iota.js:689-712 | The TX payload is the 132 field bytes, preceded by the seed fields exactly when the dialect is current and `tx_idx` is 0 |
| Codec.AddressResponseRoundTrip | dist/iota.js:606-610 | The PUBKEY response is read as its first 81 characters, whatever follows |
| Codec.SignResponseRoundTrip | dist/iota.js:646-653 | The SIGN response is read as a 243-character chunk and a signed remaining-fragments byte |
| Codec.TxResponseRoundTrip | dist/iota.js:734-741 | The TX response is read as the finalized byte and the 81-character bundle hash |
| Codec.AppConfigResponseRoundTrip | dist/iota.js:1130-1139 | The GET_APP_CONFIG response is read as flags, major, minor and patch bytes |
| Version.DecimalRoundTrip | dist/iota.js:500 | A number's decimal string has only digits, no leading zero, and reads back as the number |
| Version.VersionStringSplits | dist/iota.js:500 | The version string splits at its dots into the three decimal numbers |
| Version.VersionStringRoundTrip | dist/iota.js:500 | The version string reads back as exactly major, minor and patch, in that order |
| Fragments.MatchAllPieces | dist/iota.js:794 | Every match of `/.{2187}/g` is 2187 characters without a line terminator, and the matches are no longer than the signature together |
| Fragments.MatchIsNullWithoutCleanWindow | dist/iota.js:794 | `match` gives `null` exactly when no 2187 consecutive characters are free of line terminators, and otherwise its first match is the first such window |
| Fragments.MatchAllCutsPlainSignature | dist/iota.js:794 | A signature without line terminators is cut into `length / 2187` matches (rounded down), match `k` being characters `2187 k` to `2187 (k + 1)`; a shorter tail is dropped |
| Fragments.LineTerminatorIsSkipped | dist/iota.js:794 | A line terminator within the first 2187 characters is never covered by a match: the matches are exactly those of the text after it |
| Bundle.PadTagFillsToTagLength | dist/iota.js:1052 | A shorter tag is kept as a prefix and filled with '9' to 27 characters; a tag of 27 or more is unchanged; an empty tag becomes `EMPTY_TAG` |
| Bundle.NoChecksum | dist/iota.js:1032 | An address without its checksum is a prefix of it, of at most 81 characters |
| Bundle.FundedMembers | dist/iota.js:387-389 | An input is kept exactly when it is one of the inputs and its balance is positive |
| Bundle.FundedAppend | dist/iota.js:387-389 | Filtering distributes over concatenation, so the kept inputs stay in their order and keep their repetitions |
| Bundle.FundedSingle | dist/iota.js:387-389 | A single input is kept exactly when its balance is positive |
| Bundle.AcceptedRequestBalances | dist/iota.js:384-451 | An accepted request has at most one transfer and one or two funded inputs, and the inputs pay the transfers plus the remainder, which is present exactly when they do not balance |
| Bundle.NothingFunded | dist/iota.js:387-389 | With no positive balance no input is kept |
| Bundle.UnfundedRequestRejected | dist/iota.js:387-397 | With no positive-balance input the request fails with "At least one input required" |
| Bundle.TooManyTransfersOrInputsRejected | dist/iota.js:399-405 | Valid arrays with a funded input but more than one transfer or more than two funded inputs are refused as an unsupported shape |
| Bundle.BalancedRequestIgnoresRemainder | dist/iota.js:414-420 | When the inputs exactly pay the transfers, a supplied remainder is ignored |
| Bundle.UnbalancedRequestNeedsRemainder | dist/iota.js:414-427 | When they do not, a missing remainder fails with "Remainder object required" |
| Bundle.DuplicateCheckSeesOnlyRemainder | dist/iota.js:1004-1018 | The check fires exactly when the remainder address is also a transfer or input address |
| Bundle.DuplicateInputsPass | dist/iota.js:1004-1018 | Two inputs with the same address are not refused |
| Bundle.NormaliseKeepsShape | dist/iota.js:1031-1057 | Normalising keeps the counts, the order, values, balances and key indices, strips the checksum (`noChecksum`) from every transfer, input and remainder address, pads every tag and gives every input the session's security level |
| Bundle.KeyIndicesHoldOwnAddresses | dist/iota.js:1077-1084 | The key-index table holds exactly the input and remainder addresses; the remainder's index wins, and otherwise the last input with the address |
| Bundle.InputKeyIndicesHold | dist/iota.js:1079-1081 | The input part of the table holds exactly the input addresses, each with its last input's key index |
| Bundle.KeyIndexForDefaultsToZero | dist/iota.js:917 | A lookup gives the table's entry, or 0 for an address the table does not hold |
| Bundle.Finalize | dist/iota.js:1074 | Finalizing numbers the transactions 0..n-1, gives each the last index and one bundle hash, and keeps addresses, values and fragments |
| Bundle.BuildBundle | dist/iota.js:1063-1074 | The bundle has one transaction per transfer, `security` per input and one for a remainder: 1 to 8 in all |
| Bundle.TransferEntriesLayout | dist/iota.js:1064-1066 | Each transfer is appended as one transaction, in order, with its address, value and tag, after the entries already there |
| Bundle.InputEntriesLayout | dist/iota.js:1067-1069 | Each input is appended as `security` transactions, in order: the first spends the balance, the others are zero-value transactions of the same address, all with the all-'9' `EMPTY_TAG` |
| Bundle.BuildBundleLayout | dist/iota.js:1063-1074 | The built bundle is the transfers, then each input's run starting where the previous run ended, then the remainder; every transaction carries its own index, the last index, the one bundle hash, the timestamp and an all-'9' fragment |
| Conversation.SingleExchanges | dist/iota.js:1190-1214 | Each PUBKEY, SIGN and TX call sends its one command, consumes one reply, and succeeds only on a response, read with its layout |
| Conversation.ActivateStoresSeedFirst | dist/iota.js:190-245 | A bad path string, path length or security level fails with nothing sent and the state unchanged; an accepted seed is stored before the first command, GET_APP_CONFIG, and stays even if the device then fails |
| Conversation.ActivateChoosesDialect | dist/iota.js:224-245 | After the config, SET_SEED is sent exactly when the minor version is below 5 and a partial RESET otherwise; the session is legacy exactly when that held now or before |
| Conversation.AddressConvOneCommand | dist/iota.js:284-318 | Without a seed or with a bad index nothing is sent; otherwise one PUBKEY command whose p1 is the display flag and whose payload ends with the index, and the answer is the device's address, checksummed when asked |
| Conversation.VersionConvReportsConfig | dist/iota.js:495-500 | One GET_APP_CONFIG is sent, and the answer reads back as bytes 1, 2 and 3 of the response |
| Conversation.CollectSignatureChunks | dist/iota.js:766-790 | At least one SIGN command goes out, all for the index, and every reply read but the last says more fragments remain; on success exactly one reply per command is consumed, the last is a readable SIGN reply saying none remain, and the signature grows by 243 characters per command after the initial one; on failure the reply for the last command is missing or unreadable |
| Conversation.CollectSignatureConcatenates | dist/iota.js:766-790 | On success the signature is the initial one followed by the chunks of the replies read, in order |
| Conversation.FillMetaReach | dist/iota.js:846-856 | The inner loop moves on by `security - 1` transactions, or stops exactly when that runs past the bundle's end |
| Conversation.FillMetaTouchesOnlyContinuations | dist/iota.js:846-869 | The inner loop changes only signature fragments, only of zero-value transactions of the signer's address that it passes, and only to one of the fragments or none |
| Conversation.FillMetaAssignsInOrder | dist/iota.js:846-869 | When the next transactions are all the signer's zero-value continuations and enough fragments remain, each receives the next fragment, in order |
| Conversation.SignAtChangesOnlyFragments | dist/iota.js:843-869 | Placing one signature changes only fragments, and nothing before the spending transaction or with a positive value |
| Conversation.SignAtGivesHeadFirstFragment | dist/iota.js:843 | The spending transaction receives the first fragment the device returned (none if it returned none) and nothing else of it changes, whatever `security` is; every transaction before it is unchanged |
| Conversation.SignFromChangesOnlyFragments | dist/iota.js:819-880 | Adding all signatures changes only fragments, and no transaction with a positive value |
| Conversation.SpendChangesOnlyFragments | dist/iota.js:836-880 | The same from a spending transaction on |
| Conversation.SignLastSpendingTransaction | dist/iota.js:827-857 | A spending transaction in last place, such as the remainder of an underfunded request, is asked for its signature too; once the device delivers one, it receives the first fragment, the other fragments are dropped as the inner loop returns at the end of the bundle, and signing passes |
| Conversation.SignFromSendsOnlySign | dist/iota.js:819-880 | Adding the signatures sends SIGN commands only |
| Conversation.SubmitFromSendsOnePerEntry | dist/iota.js:910-930 | The TX round sends at most one command per transaction, and exactly one per transaction when it succeeds |
| Conversation.SubmitFromSendsEveryEntry | dist/iota.js:910-930 | The TX commands go out in bundle order, one per transaction, each built from that transaction and its key index |
| Conversation.SubmitFromKeepsLastAnswer | dist/iota.js:910-930 | A successful TX round consumes one reply per transaction and keeps only the last answer |
| Conversation.TxCommandsOfFinalizedBundle | dist/iota.js:722-730 | For a finalized bundle p1 is 0x00 only for the first transaction, the seed fields go only with the first one in the current dialect, and the long timeout is used for the last one only |
| Conversation.SubmitFromSendsOnlyTx | dist/iota.js:910-930 | The TX round sends TX commands only |
| Conversation.SignBundleChecksHashFirst | dist/iota.js:967-980 | Unless the last answer says finalized with the bundle's own hash, no SIGN is sent, the bundle is unchanged, and the call fails with "Bundle not finalized" or else "Wrong bundle hash" |
| Conversation.SignBundleSendsFirstTransaction | dist/iota.js:910-920 | Signing a bundle always starts with the TX command of its first transaction |
| Conversation.SignBundleSubmitsThenSigns | dist/iota.js:902-987 | A bundle that signs went out whole in order before the first SIGN, and came back changed in signature fragments only |
| Conversation.Reversed | dist/iota.js:1100 | `reverse()` lists the elements from last to first |
| Conversation.TrytesLastFirst | dist/iota.js:1093-1100 | The answer has one trytes string per transaction, from the last transaction to the first |
| Conversation.SignTransactionSigns | dist/iota.js:453-463 | Once the host-side checks pass, the call is the bundle's signing followed by a partial reset, and fails if either fails |
| Conversation.SignTransactionChecksFirst | dist/iota.js:361-451 | The call sends nothing exactly when the host-side checks fail, and then fails with their error |
| Conversation.SignTransactionAnswer | dist/iota.js:1093-1100 | A successful call answers the signed bundle's trytes from last to first, and its final command is a partial reset |
| Signing.SignConvOfScript | dist/iota.js:635-653 | Against a device that sends a signature chunk by chunk, one SIGN exchange sends one command and reads the first chunk and whether more remain |
| Signing.CollectSignatureOfScript | dist/iota.js:766-790 | Against such a device the SIGN loop sends one command per chunk, reads exactly those replies and yields the chunks joined |
| Signing.FragmentsOfScript | dist/iota.js:766-794 | Against such a device, for a signature without line terminators and of at least `security` fragments, the fragments are the signature's consecutive 2187-character pieces |
| Signing.SignAtAssignsInOrder | dist/iota.js:843-869 | A spending transaction followed by its `security - 1` zero-value continuations receives, with them, the fragments in order; only fragments change, nothing before it, and signing resumes right after the run |
| Signing.ScriptsDeliver | dist/iota.js:766-794 | Replies that send the signatures one after the other deliver each to the SIGN commands of its own spending transaction |
| Signing.SignFromSignsRuns | dist/iota.js:819-880 | When the spending transactions head runs of continuations and the device delivers one signature per run: signing passes, consumes exactly those replies, sends one SIGN per chunk for each run in order, and every run receives its signature's pieces in order; only fragments change |
| Signing.BuiltBundleRuns | dist/iota.js:1063-1074 | In the bundle built from funded inputs at the session's level and paying transfers and remainder, the spending transactions are exactly the inputs' first transactions, each followed by its continuations |
| Signing.SignBuiltBundle | dist/iota.js:819-880 | Signing that bundle against such a device passes, sends one SIGN per chunk for each input in order with the index of the input's first transaction, and gives every input's first transaction and continuations its signature's fragments in order; only fragments change |
| Ledger.StripTransferChecksums | dist/iota.js:1031-1033 | Every transfer address loses its checksum, nothing else changes |
| Ledger.StripInputChecksums | dist/iota.js:1034-1036 | Every input address loses its checksum, nothing else changes |
| Ledger.PadTags | dist/iota.js:1051-1053 | Every transfer tag is padded |
| Ledger.SetSecurities | dist/iota.js:1055-1057 | Every input gets the session's security level |
| Ledger.MapKeyIndices | dist/iota.js:1077-1084 | The table built is the key-index table of the inputs and the remainder |
| Ledger.CollectTrytes | dist/iota.js:1095-1098 | One trytes string per transaction, in bundle order |
| Ledger.Iota.constructor | dist/iota.js:161-168 | A new driver has no seed, an empty path and the current dialect |
| Ledger.Iota.SendCommand | dist/iota.js:1190-1214 | One exchange with the class byte 0x7a, as the reference conversation |
| Ledger.Iota.GetAppConfig | dist/iota.js:1125-1139 | Exactly the GET_APP_CONFIG conversation |
| Ledger.Iota.Reset | dist/iota.js:1165 | Exactly the RESET conversation, p1 = 1 for a partial reset |
| Ledger.Iota.SetSeed | dist/iota.js:541-549 | Exactly the SET_SEED conversation, with the seed fields as payload |
| Ledger.Iota.PublicKey | dist/iota.js:600-610 | Exactly the PUBKEY conversation in the session's dialect |
| Ledger.Iota.Sign | dist/iota.js:635-653 | Exactly the SIGN conversation |
| Ledger.Iota.Transaction | dist/iota.js:722-741 | Exactly the TX conversation: p1 and timeout from the indices, payload in the session's dialect |
| Ledger.Iota.SetActiveSeed | dist/iota.js:183-245 | New state and conversation exactly as `Activate`, with security level 2 when the caller leaves it out, and the driver invariant is kept |
| Ledger.Iota.GetAddress | dist/iota.js:278-318 | Exactly the `getAddress` conversation, with no checksum and no display unless the options ask for them |
| Ledger.Iota.GetAppVersion | dist/iota.js:495-500 | Exactly the `getAppVersion` conversation |
| Ledger.Iota.GetSignatureFragments | dist/iota.js:766-794 | The SIGN loop and the cut into fragments, exactly as the reference conversation |
| Ledger.Iota.PlaceFragments | dist/iota.js:843-869 | The bundle array afterwards, the last position reached and the early return are exactly those of `SignAt` |
| Ledger.Iota.AddSignatureFragmentsToBundle | dist/iota.js:819-880 | The bundle array afterwards, the outcome, the commands and the replies consumed are exactly those of `SignFrom` |
| Ledger.Iota.SubmitBundle | dist/iota.js:902-930 | The TX round exactly as `SubmitFrom`, keeping the last answer |
| Ledger.Iota.SignBundle | dist/iota.js:902-987 | The bundle array afterwards, the outcome and the conversation are exactly those of `SignBundleConv` |
| Ledger.Iota.HasDuplicateAddresses | dist/iota.js:1004-1018 | The set-building loops give the check as written |
| Ledger.Iota.NormaliseRequest | dist/iota.js:1031-1057 | The request after stripping, the duplicate check, padding and security levels, as `Normalise` |
| Ledger.Iota.SignRequest | dist/iota.js:1031-1100 | Exactly the `_signTransaction` conversation |
| Ledger.Iota.SignTransaction | dist/iota.js:361-463 | Exactly the `signTransaction` conversation |

## Left out

- The Babel and regenerator machinery (`_context.next` states, `_asyncToGenerator`, the iterator protocol of `_signBundle`): the model follows the logical control flow.
- Transport I/O: `setExchangeTimeout` and `send` are one exchange with the scripted device, and the timeout is recorded with the command. `decorateAppAPIMethods` (exclusive device access) and concurrent calls are not modelled.
- Status words on success: the device's trailing status word is left inside the response bytes, which the layouts never read.
- `bip32-path` parsing: `setActiveSeed` takes the parsed path, or `None` when `validateString` fails. An empty path array fails the length check with "Invalid BIP32 path length".
- The validators `isTransfersArray`, `isInputsArray` and `isRemainderObject`, and the utilities `addChecksum`, `transactionTrytes` and the bundle hash, are opaque function parameters (`Bundle.External`). `isSecurity` (1 to 3) and `isIndex` (unsigned 32-bit) are concrete, and `noChecksum` keeps the first 81 characters.
- The bundle library: `addEntry`, `addTrytes([])` and `finalize` are modelled without hashing. `finalize`'s obsolete-tag increment for insecure hashes is not modelled, and neither are the trunk, branch, nonce and attachment fields.
- `Date.now()`: the timestamp is a parameter.
- JavaScript numbers: balances and values are unbounded integers, so the sums of `reduce` have no floating-point rounding; a value outside the signed 64-bit range is written modulo 2^64.
- A response shorter than its layout: the `struct` package is not part of this model, so such a response gives the error `ShortResponse`.
- Mutation of the caller's objects: `_signTransaction` rewrites the caller's transfer and input objects in place, and `getAddress` writes the defaulted `checksum` and `display` back into the caller's options; the model works on copies and does not show the caller those changes. Options other than booleans are not modelled: an option is `true`, `false` or left out.
- `signature.match(...)` returning `null` makes `.shift()` throw a `TypeError`; the model gives the error `NoSignatureFragment` with that message.
- Ledger.Iota.AddSignatureFragmentsToBundle: requires at most 2^32 transactions so that a position fits the SIGN index; bundles built by `signTransaction` have at most 8.
- Ledger.Iota.SignRequest: requires what `signTransaction` has already checked (a seed, at most one transfer, one or two inputs), as `_signTransaction` is only called from there.
- Signing.SignBuiltBundle: covers bundles whose remainder and transfers do not spend. `signTransaction` does not refuse a request whose funded balance falls short of the payment: the remainder then carries the negative difference, the driver asks the device for a signature for it as well, places that signature's first fragment on it and returns at the end of the bundle (`Conversation.SignLastSpendingTransaction` states that step on its own). The end-to-end statement does not cover that bundle, nor one with a transfer of negative value, which the opaque `isTransfersArray` is not assumed to refuse.
- Signing.BuiltBundleRuns: the same restriction; with a spending remainder the last transaction is a spending transaction that no input heads, and it has no continuations.
