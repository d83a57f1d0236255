/** The host-side half of signing: the caller's transfers, inputs and
    remainder, their validation and normalisation, and the bundle entries
    built from them (`signTransaction` up to the device conversation). */
module Bundle {

  import opened Bytes
  import opened Wrappers
  import opened Errors
  import opened Codec

  datatype Transfer = Transfer(address: string, value: int, tag: string)

  /** `security` is the field `_signTransaction` sets on each input. */
  datatype Input = Input(address: string, balance: int, keyIndex: uint32, security: nat)

  datatype Remainder = Remainder(address: string, value: int, keyIndex: uint32)

  /** A transaction of the bundle, as the ledger-format library builds it. */
  datatype Entry = Entry(
    address: string, value: int, obsoleteTag: string, tag: string, timestamp: uint32,
    currentIndex: uint32, lastIndex: uint32, bundle: string,
    signatureMessageFragment: Option<string>)

  /** The collaborators the driver calls but does not define: the structural
      validators of `./input_validator`, and `addChecksum`, the bundle hash
      computed by `Bundle.finalize`, and `transactionTrytes` of the
      ledger-format library. */
  datatype External = External(
    isTransfersArray: seq<Transfer> -> bool,
    isInputsArray: seq<Input> -> bool,
    isRemainderObject: Remainder -> bool,
    addChecksum: string -> string,
    bundleHash: seq<Entry> -> string,
    transactionTrytes: Entry -> string)

  const SIGNATURE_FRAGMENT_LENGTH: nat := 2187
  const EMPTY_TAG: string := Nines(TAG_LENGTH)
  const EMPTY_SIGNATURE_FRAGMENT: string := Nines(SIGNATURE_FRAGMENT_LENGTH)

  /** n filler trytes. */
  function Nines(n: nat): (r: string)
    ensures |r| == n && forall k :: 0 <= k < n ==> r[k] == '9'
  {
    seq(n, k => '9')
  }

  /** The most transfers and inputs one signing call accepts. */
  const MAX_TRANSFERS: nat := 1
  const MAX_INPUTS: nat := 2

  /** `isSecurity`: the IOTA security levels. */
  predicate IsSecurity(security: int)
  {
    1 <= security <= 3
  }

  /** `isIndex`: an unsigned 32-bit address index. */
  predicate IsIndex(index: int)
  {
    0 <= index < TWO_TO_32
  }

  // ---- tags ----

  /** `String.prototype.padEnd(n, c)` with a one-character filler. */
  function PadEnd(s: string, n: nat, c: char): string
  {
    if |s| >= n then s else s + seq(n - |s|, k => c)
  }

  /** `t.tag ? t.tag.padEnd(27, '9') : EMPTY_TAG`. */
  function PadTag(tag: string): string
  {
    if tag == "" then EMPTY_TAG else PadEnd(tag, TAG_LENGTH, '9')
  }

  /** A tag shorter than 27 characters is kept as the prefix and filled up with
      '9' to exactly 27; a longer or full-length tag is left alone; a missing
      tag becomes 27 '9's. */
  lemma PadTagFillsToTagLength(tag: string)
    ensures |tag| >= TAG_LENGTH ==> PadTag(tag) == tag
    ensures |tag| < TAG_LENGTH ==>
      |PadTag(tag)| == TAG_LENGTH && PadTag(tag)[..|tag|] == tag
      && forall k :: |tag| <= k < TAG_LENGTH ==> PadTag(tag)[k] == '9'
    ensures tag == "" ==> PadTag(tag) == EMPTY_TAG
  {
  }

  // ---- addresses ----

  /** `noChecksum`: the address without its 9-tryte checksum (its first 81
      characters). */
  function NoChecksum(address: string): (r: string)
    ensures |r| <= ADDRESS_LENGTH
    ensures |r| <= |address| && r == address[..|r|]
  {
    if |address| <= ADDRESS_LENGTH then address else address[..ADDRESS_LENGTH]
  }

  // ---- validation of a signing request ----

  /** `inputs.filter(input => input.balance > 0)`. */
  function Funded(inputs: seq<Input>): (r: seq<Input>)
    ensures |r| <= |inputs|
  {
    if inputs == [] then []
    else (if inputs[0].balance > 0 then [inputs[0]] else []) + Funded(inputs[1..])
  }

  /** The inputs kept are exactly those with a positive balance ... */
  lemma {:induction false} FundedMembers(inputs: seq<Input>)
    ensures forall x :: x in Funded(inputs) <==> x in inputs && x.balance > 0
    decreases |inputs|
  {
    if inputs != [] {
      FundedMembers(inputs[1..]);
      assert inputs == [inputs[0]] + inputs[1..];
    }
  }

  /** ... in their order and with their repetitions: the filter distributes
      over concatenation ... */
  lemma {:induction false} FundedAppend(xs: seq<Input>, ys: seq<Input>)
    ensures Funded(xs + ys) == Funded(xs) + Funded(ys)
    decreases |xs|
  {
    if xs == [] {
      assert xs + ys == ys;
    } else {
      var h := if xs[0].balance > 0 then [xs[0]] else [];
      var rest := Funded(xs[1..]);
      FundedAppend(xs[1..], ys);
      assert (xs + ys)[0] == xs[0];
      assert (xs + ys)[1..] == xs[1..] + ys;
      assert Funded(xs + ys) == h + (rest + Funded(ys));
      assert Funded(xs) == h + rest;
      assert h + (rest + Funded(ys)) == (h + rest) + Funded(ys);
    }
  }

  /** ... and keeps or drops each input on its own. */
  lemma FundedSingle(x: Input)
    ensures Funded([x]) == if x.balance > 0 then [x] else []
  {
    assert [x][1..] == [];
  }

  function SumBalances(inputs: seq<Input>): int
  {
    if inputs == [] then 0 else SumBalances(inputs[..|inputs| - 1]) + inputs[|inputs| - 1].balance
  }

  function SumValues(transfers: seq<Transfer>): int
  {
    if transfers == [] then 0
    else SumValues(transfers[..|transfers| - 1]) + transfers[|transfers| - 1].value
  }

  /** What `signTransaction` hands to `_signTransaction`. */
  datatype Request = Request(transfers: seq<Transfer>, inputs: seq<Input>, remainder: Option<Remainder>)

  /** The checks of `signTransaction` after the seed check, in their order. */
  function CheckRequest(ext: External, transfers: seq<Transfer>, inputs: seq<Input>,
                        remainder: Option<Remainder>): Result<Request, Failure>
  {
    if !ext.isTransfersArray(transfers) then Err(InvalidTransfers)
    else if !ext.isInputsArray(inputs) then Err(InvalidInputs)
    else
      var funded := Funded(inputs);
      if |funded| < 1 then Err(NoInput)
      else if |transfers| > MAX_TRANSFERS || |funded| > MAX_INPUTS then Err(UnsupportedShape)
      else
        var balance := SumBalances(funded);
        var payment := SumValues(transfers);
        if balance == payment then Ok(Request(transfers, funded, None))
        else if remainder.None? then Err(RemainderRequired)
        else if !ext.isRemainderObject(remainder.value) then Err(InvalidRemainder)
        else Ok(Request(transfers, funded,
                        Some(Remainder(remainder.value.address, balance - payment,
                                       remainder.value.keyIndex))))
  }

  function RemainderValue(r: Option<Remainder>): int
  {
    if r.Some? then r.value.value else 0
  }

  /** An accepted request has at most one transfer, one or two funded inputs
      (the caller's positive-balance inputs, in order), and balances: the
      inputs pay the transfers plus the remainder, which is present exactly
      when the transfers alone do not use up the inputs. */
  lemma AcceptedRequestBalances(ext: External, transfers: seq<Transfer>, inputs: seq<Input>,
                                remainder: Option<Remainder>)
    requires CheckRequest(ext, transfers, inputs, remainder).Ok?
    ensures var req := CheckRequest(ext, transfers, inputs, remainder).value;
      && req.transfers == transfers
      && req.inputs == Funded(inputs)
      && |req.transfers| <= MAX_TRANSFERS
      && 1 <= |req.inputs| <= MAX_INPUTS
      && (forall x :: x in req.inputs ==> x.balance > 0)
      && SumBalances(req.inputs) == SumValues(req.transfers) + RemainderValue(req.remainder)
      && (req.remainder.Some? <==> SumBalances(req.inputs) != SumValues(req.transfers))
      && (req.remainder.Some? ==>
            req.remainder.value.address == remainder.value.address
            && req.remainder.value.keyIndex == remainder.value.keyIndex)
  {
    FundedMembers(inputs);
  }

  /** When the inputs exactly pay the transfers, a supplied remainder is ignored. */
  lemma BalancedRequestIgnoresRemainder(ext: External, transfers: seq<Transfer>,
                                        inputs: seq<Input>, remainder: Remainder)
    requires SumBalances(Funded(inputs)) == SumValues(transfers)
    ensures CheckRequest(ext, transfers, inputs, Some(remainder))
              == CheckRequest(ext, transfers, inputs, None)
  {
  }

  /** When they do not, and every earlier check passes, a missing remainder is
      an error. */
  lemma UnbalancedRequestNeedsRemainder(ext: External, transfers: seq<Transfer>, inputs: seq<Input>)
    requires ext.isTransfersArray(transfers) && ext.isInputsArray(inputs)
    requires 1 <= |Funded(inputs)| <= MAX_INPUTS && |transfers| <= MAX_TRANSFERS
    requires SumBalances(Funded(inputs)) != SumValues(transfers)
    ensures CheckRequest(ext, transfers, inputs, None) == Err(RemainderRequired)
  {
  }

  lemma {:induction false} NothingFunded(inputs: seq<Input>)
    requires forall x :: x in inputs ==> x.balance <= 0
    ensures Funded(inputs) == []
  {
    if inputs != [] {
      assert inputs[0] in inputs;
      assert forall x :: x in inputs[1..] ==> x in inputs;
      NothingFunded(inputs[1..]);
    }
  }

  /** Zero- and negative-balance inputs do not count: with no funded input the
      request fails, whatever else it holds. */
  lemma UnfundedRequestRejected(ext: External, transfers: seq<Transfer>, inputs: seq<Input>,
                                remainder: Option<Remainder>)
    requires ext.isTransfersArray(transfers) && ext.isInputsArray(inputs)
    requires forall x :: x in inputs ==> x.balance <= 0
    ensures CheckRequest(ext, transfers, inputs, remainder) == Err(NoInput)
  {
    NothingFunded(inputs);
  }

  /** More than one transfer or more than two funded inputs is refused, once
      the arrays are valid and some input is funded. */
  lemma TooManyTransfersOrInputsRejected(ext: External, transfers: seq<Transfer>, inputs: seq<Input>,
                                         remainder: Option<Remainder>)
    requires ext.isTransfersArray(transfers) && ext.isInputsArray(inputs)
    requires |Funded(inputs)| >= 1
    requires |transfers| > MAX_TRANSFERS || |Funded(inputs)| > MAX_INPUTS
    ensures CheckRequest(ext, transfers, inputs, remainder) == Err(UnsupportedShape)
  {
  }

  // ---- the duplicate-address check, as written ----

  function AddressesOf(transfers: seq<Transfer>, inputs: seq<Input>): set<string>
  {
    (set t | t in transfers :: t.address) + (set i | i in inputs :: i.address)
  }

  /** A JavaScript `Set` has no `length` property: reading it gives
      `undefined`, which is `===` to no number. */
  function SetLengthProperty(s: set<string>): Option<nat>
  {
    None
  }

  /** `_hasDuplicateAddresses`. */
  function HasDuplicateAddresses(transfers: seq<Transfer>, inputs: seq<Input>,
                                 remainder: Option<Remainder>): bool
  {
    var seen := AddressesOf(transfers, inputs);
    if remainder.Some? && remainder.value.address in seen then true
    else SetLengthProperty(seen) == Some(|transfers| + |inputs|)
  }

  /** The check fires exactly when the remainder address is also a transfer or
      input address; repeated addresses among the transfers and inputs pass. */
  lemma DuplicateCheckSeesOnlyRemainder(transfers: seq<Transfer>, inputs: seq<Input>,
                                        remainder: Option<Remainder>)
    ensures HasDuplicateAddresses(transfers, inputs, remainder) <==>
      remainder.Some?
      && ((exists t :: t in transfers && t.address == remainder.value.address)
          || (exists i :: i in inputs && i.address == remainder.value.address))
  {
  }

  /** Two inputs spending from the same address are not rejected. */
  lemma DuplicateInputsPass(a: string, b1: int, b2: int, k1: uint32, k2: uint32)
    ensures !HasDuplicateAddresses([], [Input(a, b1, k1, 0), Input(a, b2, k2, 0)], None)
  {
  }

  // ---- normalisation (`_signTransaction` before the bundle is built) ----

  function StripTransfer(t: Transfer): Transfer
  {
    t.(address := NoChecksum(t.address))
  }

  function StripInput(i: Input): Input
  {
    i.(address := NoChecksum(i.address))
  }

  function StripRemainder(r: Option<Remainder>): Option<Remainder>
  {
    if r.Some? then Some(r.value.(address := NoChecksum(r.value.address))) else None
  }

  function PadTransfer(t: Transfer): Transfer
  {
    t.(tag := PadTag(t.tag))
  }

  function WithSecurity(i: Input, security: nat): Input
  {
    i.(security := security)
  }

  function StripTransfers(ts: seq<Transfer>): (r: seq<Transfer>)
    ensures |r| == |ts|
  {
    seq(|ts|, k requires 0 <= k < |ts| => StripTransfer(ts[k]))
  }

  function StripInputs(ins: seq<Input>): (r: seq<Input>)
    ensures |r| == |ins|
  {
    seq(|ins|, k requires 0 <= k < |ins| => StripInput(ins[k]))
  }

  function PadTransfers(ts: seq<Transfer>): (r: seq<Transfer>)
    ensures |r| == |ts|
  {
    seq(|ts|, k requires 0 <= k < |ts| => PadTransfer(ts[k]))
  }

  function WithSecurities(ins: seq<Input>, security: nat): (r: seq<Input>)
    ensures |r| == |ins|
  {
    seq(|ins|, k requires 0 <= k < |ins| => WithSecurity(ins[k], security))
  }

  /** The request after checksums are stripped, duplicates refused, tags padded
      and each input given the session's security level. */
  function Normalise(security: nat, req: Request): Result<Request, Failure>
  {
    var ts := StripTransfers(req.transfers);
    var ins := StripInputs(req.inputs);
    var rem := StripRemainder(req.remainder);
    if HasDuplicateAddresses(ts, ins, rem) then Err(DuplicateAddresses)
    else Ok(Request(PadTransfers(ts), WithSecurities(ins, security), rem))
  }

  /** Normalising keeps the shape of the request: every address loses its
      checksum and nothing else, every transfer tag is padded, every input
      gets the session security, and all values, balances and key indices are
      kept. */
  lemma NormaliseKeepsShape(security: nat, req: Request)
    requires Normalise(security, req).Ok?
    ensures var n := Normalise(security, req).value;
      |n.transfers| == |req.transfers| && |n.inputs| == |req.inputs|
      && n.remainder.Some? == req.remainder.Some?
      && (forall k :: 0 <= k < |n.transfers| ==>
            n.transfers[k].address == NoChecksum(req.transfers[k].address)
            && n.transfers[k].value == req.transfers[k].value
            && n.transfers[k].tag == PadTag(req.transfers[k].tag))
      && (forall k :: 0 <= k < |n.inputs| ==>
            n.inputs[k].address == NoChecksum(req.inputs[k].address)
            && n.inputs[k].security == security
            && n.inputs[k].balance == req.inputs[k].balance
            && n.inputs[k].keyIndex == req.inputs[k].keyIndex)
      && (n.remainder.Some? ==>
            n.remainder.value.address == NoChecksum(req.remainder.value.address)
            && n.remainder.value.value == req.remainder.value.value
            && n.remainder.value.keyIndex == req.remainder.value.keyIndex)
  {
  }

  // ---- the address -> key index table ----

  /** `inputs.forEach(i => addressKeyIndices[i.address] = i.keyIndex)`, then the
      remainder's entry. */
  function KeyIndices(inputs: seq<Input>, remainder: Option<Remainder>): map<string, uint32>
  {
    var m := InputKeyIndices(inputs);
    if remainder.Some? then m[remainder.value.address := remainder.value.keyIndex] else m
  }

  function InputKeyIndices(inputs: seq<Input>): map<string, uint32>
  {
    if inputs == [] then map[]
    else InputKeyIndices(inputs[..|inputs| - 1])[inputs[|inputs| - 1].address := inputs[|inputs| - 1].keyIndex]
  }

  /** The table holds exactly the input addresses and the remainder address; the
      remainder's key index wins, and otherwise the last input with the address. */
  lemma {:induction false} KeyIndicesHoldOwnAddresses(inputs: seq<Input>, remainder: Option<Remainder>, a: string)
    ensures var m := KeyIndices(inputs, remainder);
      && (a in m <==> (exists i :: i in inputs && i.address == a)
                      || (remainder.Some? && remainder.value.address == a))
      && (remainder.Some? && remainder.value.address == a ==> m[a] == remainder.value.keyIndex)
      && (forall k :: 0 <= k < |inputs| && inputs[k].address == a
            && (remainder.None? || remainder.value.address != a)
            && (forall l :: k < l < |inputs| ==> inputs[l].address != a)
            ==> m[a] == inputs[k].keyIndex)
  {
    InputKeyIndicesHold(inputs, a);
  }

  lemma {:induction false} InputKeyIndicesHold(inputs: seq<Input>, a: string)
    ensures var m := InputKeyIndices(inputs);
      && (a in m <==> exists i :: i in inputs && i.address == a)
      && (forall k :: 0 <= k < |inputs| && inputs[k].address == a
            && (forall l :: k < l < |inputs| ==> inputs[l].address != a)
            ==> m[a] == inputs[k].keyIndex)
  {
    if inputs != [] {
      var init := inputs[..|inputs| - 1];
      InputKeyIndicesHold(init, a);
      forall i | i in init ensures i in inputs { }
      var last := inputs[|inputs| - 1];
      if last.address != a {
        if exists i :: i in inputs && i.address == a {
          var i :| i in inputs && i.address == a;
          assert i in init by {
            var k :| 0 <= k < |inputs| && inputs[k] == i;
            assert k < |inputs| - 1;
            assert init[k] == i;
          }
        }
      }
    }
  }

  /** `addressKeyIndices[tx.address] ? addressKeyIndices[tx.address] : 0`. */
  function KeyIndexFor(m: map<string, uint32>, address: string): uint32
  {
    if address in m && m[address] != 0 then m[address] else 0
  }

  /** The lookup is the table's entry, or 0 for an address it does not hold
      (the falsy 0 entry changes nothing). */
  lemma KeyIndexForDefaultsToZero(m: map<string, uint32>, address: string)
    ensures KeyIndexFor(m, address) == if address in m then m[address] else 0
  {
  }

  // ---- building the bundle (the ledger-format library) ----

  /** `bundle.addEntry(n, address, value, tag, timestamp)`: n transactions for
      the address, the first carrying the value and the others zero. */
  function AddEntry(entries: seq<Entry>, n: nat, address: string, value: int, tag: string,
                    timestamp: uint32): (r: seq<Entry>)
    ensures |r| == |entries| + n
  {
    entries + seq(n, k requires 0 <= k < n =>
      Entry(address, if k == 0 then value else 0, tag, tag, timestamp, 0, 0, "", None))
  }

  function TransferEntries(entries: seq<Entry>, transfers: seq<Transfer>, timestamp: uint32): (r: seq<Entry>)
    ensures |r| == |entries| + |transfers|
    decreases |transfers|
  {
    if transfers == [] then entries
    else
      var t := transfers[0];
      TransferEntries(AddEntry(entries, 1, t.address, t.value, t.tag, timestamp), transfers[1..], timestamp)
  }

  /** Every entry added after `from` carries the timestamp and no signature
      fragment yet. */
  predicate FreshFrom(E: seq<Entry>, from: nat, timestamp: uint32)
  {
    forall k :: from <= k < |E| ==> E[k].timestamp == timestamp && E[k].signatureMessageFragment == None
  }

  /** The transfers are appended one transaction each, in order, with their
      address, value and tag. */
  lemma {:induction false} TransferEntriesLayout(entries: seq<Entry>, transfers: seq<Transfer>, timestamp: uint32)
    ensures var r := TransferEntries(entries, transfers, timestamp);
      && r[..|entries|] == entries
      && FreshFrom(r, |entries|, timestamp)
      && forall k :: 0 <= k < |transfers| ==>
           r[|entries| + k].address == transfers[k].address && r[|entries| + k].value == transfers[k].value
           && r[|entries| + k].obsoleteTag == transfers[k].tag && r[|entries| + k].tag == transfers[k].tag
    decreases |transfers|
  {
    if transfers != [] {
      var t := transfers[0];
      var e1 := AddEntry(entries, 1, t.address, t.value, t.tag, timestamp);
      TransferEntriesLayout(e1, transfers[1..], timestamp);
      var r := TransferEntries(entries, transfers, timestamp);
      assert r == TransferEntries(e1, transfers[1..], timestamp);
      assert r[..|e1|] == e1;
      assert r[..|entries|] == e1[..|entries|];
      assert r[|entries|] == e1[|entries|];
      forall k | |entries| <= k < |r|
        ensures r[k].timestamp == timestamp && r[k].signatureMessageFragment == None
      {
        if k < |e1| {
          assert r[k] == e1[k];
        }
      }
      forall k | 1 <= k < |transfers|
        ensures r[|entries| + k].address == transfers[k].address && r[|entries| + k].value == transfers[k].value
          && r[|entries| + k].obsoleteTag == transfers[k].tag && r[|entries| + k].tag == transfers[k].tag
      {
        assert transfers[1..][k - 1] == transfers[k];
        assert |e1| + (k - 1) == |entries| + k;
      }
    }
  }

  function SumSecurity(inputs: seq<Input>): nat
  {
    if inputs == [] then 0 else inputs[0].security + SumSecurity(inputs[1..])
  }

  lemma {:induction false} SumSecurityAppend(a: seq<Input>, b: seq<Input>)
    ensures SumSecurity(a + b) == SumSecurity(a) + SumSecurity(b)
    decreases |a|
  {
    if a == [] {
      assert a + b == b;
    } else {
      SumSecurityAppend(a[1..], b);
      assert (a + b)[1..] == a[1..] + b;
    }
  }

  function InputEntries(entries: seq<Entry>, inputs: seq<Input>, timestamp: uint32): (r: seq<Entry>)
    ensures |r| == |entries| + SumSecurity(inputs)
    decreases |inputs|
  {
    if inputs == [] then entries
    else
      var i := inputs[0];
      InputEntries(AddEntry(entries, i.security, i.address, -i.balance, EMPTY_TAG, timestamp),
                   inputs[1..], timestamp)
  }

  /** Transactions `h` to `h + security - 1` of `E` spend input `i`: the first
      carries its balance as a negative value, the others are zero-value
      continuations of the same address, all with the empty tag. */
  predicate SpendsInput(E: seq<Entry>, h: nat, i: Input)
  {
    h + i.security <= |E|
    && forall j :: h <= j < h + i.security ==>
         E[j].address == i.address && E[j].value == (if j == h then -i.balance else 0)
         && E[j].obsoleteTag == EMPTY_TAG && E[j].tag == EMPTY_TAG
  }

  /** Each input is appended as `security` transactions, in input order, input
      `n` starting after the transactions of the inputs before it. */
  lemma {:induction false} InputEntriesLayout(entries: seq<Entry>, inputs: seq<Input>, timestamp: uint32)
    ensures var r := InputEntries(entries, inputs, timestamp);
      && r[..|entries|] == entries
      && FreshFrom(r, |entries|, timestamp)
      && forall n :: 0 <= n < |inputs| ==> SpendsInput(r, |entries| + SumSecurity(inputs[..n]), inputs[n])
    decreases |inputs|
  {
    if inputs != [] {
      var i := inputs[0];
      var e1 := AddEntry(entries, i.security, i.address, -i.balance, EMPTY_TAG, timestamp);
      InputEntriesLayout(e1, inputs[1..], timestamp);
      var r := InputEntries(entries, inputs, timestamp);
      assert r == InputEntries(e1, inputs[1..], timestamp);
      AddedRun(entries, e1, r, i, timestamp);
      forall n | 0 <= n < |inputs|
        ensures SpendsInput(r, |entries| + SumSecurity(inputs[..n]), inputs[n])
      {
        if n > 0 {
          assert inputs[..n][1..] == inputs[1..][..n - 1];
          assert SumSecurity(inputs[..n]) == i.security + SumSecurity(inputs[1..][..n - 1]);
          assert inputs[1..][n - 1] == inputs[n];
        }
      }
    }
  }

  /** The run `addEntry` appends for an input stays in place as later runs are
      appended. */
  lemma AddedRun(entries: seq<Entry>, e1: seq<Entry>, r: seq<Entry>, i: Input, timestamp: uint32)
    requires e1 == AddEntry(entries, i.security, i.address, -i.balance, EMPTY_TAG, timestamp)
    requires |e1| <= |r| && r[..|e1|] == e1 && FreshFrom(r, |e1|, timestamp)
    ensures r[..|entries|] == entries
    ensures FreshFrom(r, |entries|, timestamp)
    ensures SpendsInput(r, |entries|, i)
  {
    assert r[..|entries|] == e1[..|entries|];
    forall k | |entries| <= k < |e1| ensures r[k] == e1[k] {
      assert r[..|e1|][k] == r[k];
    }
  }

  /** Every entry added for the transfers, the inputs and the remainder. */
  function Entries(req: Request, timestamp: uint32): (r: seq<Entry>)
    ensures |r| == |req.transfers| + SumSecurity(req.inputs) + (if req.remainder.Some? then 1 else 0)
  {
    var e := InputEntries(TransferEntries([], req.transfers, timestamp), req.inputs, timestamp);
    if req.remainder.Some? then
      AddEntry(e, 1, req.remainder.value.address, req.remainder.value.value, EMPTY_TAG, timestamp)
    else e
  }

  /** `bundle.addTrytes([])`: every signature fragment starts as all '9'. */
  function AddEmptyFragments(entries: seq<Entry>): (r: seq<Entry>)
    ensures |r| == |entries|
  {
    seq(|entries|, k requires 0 <= k < |entries| =>
      entries[k].(signatureMessageFragment := Some(EMPTY_SIGNATURE_FRAGMENT)))
  }

  /** `bundle.finalize()`: chain indices and the bundle hash on every entry. */
  function Finalize(entries: seq<Entry>, hash: seq<Entry> -> string): (r: seq<Entry>)
    requires 0 < |entries| <= TWO_TO_32
    ensures |r| == |entries|
    ensures forall k :: 0 <= k < |r| ==>
      r[k] == entries[k].(currentIndex := k, lastIndex := |r| - 1, bundle := r[0].bundle)
  {
    WithBundleHash(Indexed(entries), hash(Indexed(entries)))
  }

  function Indexed(entries: seq<Entry>): (r: seq<Entry>)
    requires |entries| <= TWO_TO_32
    ensures |r| == |entries|
  {
    seq(|entries|, k requires 0 <= k < |entries| =>
      entries[k].(currentIndex := k, lastIndex := |entries| - 1))
  }

  function WithBundleHash(entries: seq<Entry>, h: string): (r: seq<Entry>)
    ensures |r| == |entries|
  {
    seq(|entries|, k requires 0 <= k < |entries| => entries[k].(bundle := h))
  }

  /** A request the driver can send: at most one transfer, one or two inputs
      and a security level of 1 to 3 on each. */
  predicate SupportedShape(req: Request)
  {
    |req.transfers| <= MAX_TRANSFERS && 1 <= |req.inputs| <= MAX_INPUTS
    && forall i :: i in req.inputs ==> IsSecurity(i.security)
  }

  lemma {:induction false} SumSecurityBound(inputs: seq<Input>)
    requires forall i :: i in inputs ==> IsSecurity(i.security)
    ensures |inputs| <= SumSecurity(inputs) <= 3 * |inputs|
  {
    if inputs != [] {
      forall i | i in inputs[1..] ensures IsSecurity(i.security) {
        assert i in inputs;
      }
      SumSecurityBound(inputs[1..]);
    }
  }

  /** The finalized, not yet signed bundle. */
  function BuildBundle(req: Request, timestamp: uint32, hash: seq<Entry> -> string): (r: seq<Entry>)
    requires SupportedShape(req)
    ensures |r| == |req.transfers| + SumSecurity(req.inputs) + (if req.remainder.Some? then 1 else 0)
    ensures 0 < |r| <= 8
  {
    SumSecurityBound(req.inputs);
    Finalize(AddEmptyFragments(Entries(req, timestamp)), hash)
  }

  /** Where input `n`'s transactions start: after the transfers and the
      transactions of the inputs before it. */
  function InputHead(req: Request, n: nat): nat
    requires n <= |req.inputs|
  {
    |req.transfers| + SumSecurity(req.inputs[..n])
  }

  /** `F` holds the same transactions as `E`: the same addresses, values and
      tags at the same positions. */
  predicate SameTransactions(E: seq<Entry>, F: seq<Entry>)
  {
    |F| == |E|
    && forall k :: 0 <= k < |E| ==>
         F[k].address == E[k].address && F[k].value == E[k].value
         && F[k].obsoleteTag == E[k].obsoleteTag && F[k].tag == E[k].tag
  }

  lemma SpendsInputCarriesOver(E: seq<Entry>, F: seq<Entry>, h: nat, i: Input)
    requires SameTransactions(E, F) && SpendsInput(E, h, i)
    ensures SpendsInput(F, h, i)
  {
    forall j | h <= j < h + i.security
      ensures F[j].address == i.address && F[j].value == (if j == h then -i.balance else 0)
        && F[j].obsoleteTag == EMPTY_TAG && F[j].tag == EMPTY_TAG
    {
      assert F[j].address == E[j].address;
    }
  }

  /** The entries added, in the order of the layout below. */
  lemma EntriesLayout(req: Request, timestamp: uint32)
    ensures var all := Entries(req, timestamp);
      && FreshFrom(all, 0, timestamp)
      && (forall k :: 0 <= k < |req.transfers| ==>
            all[k].address == req.transfers[k].address && all[k].value == req.transfers[k].value
            && all[k].obsoleteTag == req.transfers[k].tag)
      && (forall n :: 0 <= n < |req.inputs| ==> SpendsInput(all, InputHead(req, n), req.inputs[n]))
      && (req.remainder.Some? ==>
            all[|all| - 1].address == req.remainder.value.address
            && all[|all| - 1].value == req.remainder.value.value
            && all[|all| - 1].obsoleteTag == EMPTY_TAG)
  {
    var t := TransferEntries([], req.transfers, timestamp);
    var e := InputEntries(t, req.inputs, timestamp);
    var all := Entries(req, timestamp);
    TransferEntriesLayout([], req.transfers, timestamp);
    InputEntriesLayout(t, req.inputs, timestamp);
    assert all[..|e|] == e;
    forall k | 0 <= k < |all| ensures all[k].timestamp == timestamp && all[k].signatureMessageFragment == None {
      if k < |e| {
        assert all[k] == e[k];
        if k < |t| {
          assert e[..|t|][k] == t[k];
        }
      }
    }
    forall k | 0 <= k < |req.transfers|
      ensures all[k].address == req.transfers[k].address && all[k].value == req.transfers[k].value
        && all[k].obsoleteTag == req.transfers[k].tag
    {
      assert e[..|t|][k] == t[k];
      assert all[k] == e[k];
    }
    forall n | 0 <= n < |req.inputs| ensures SpendsInput(all, InputHead(req, n), req.inputs[n]) {
      var h := InputHead(req, n);
      assert SpendsInput(e, h, req.inputs[n]);
      forall j | h <= j < h + req.inputs[n].security ensures all[j] == e[j] {
        assert all[..|e|][j] == e[j];
      }
    }
  }

  /** Consecutive inputs start `security` transactions apart, and the
      remainder, if any, follows the last input. */
  lemma InputHeadsStep(req: Request, n: nat)
    requires n < |req.inputs|
    ensures InputHead(req, n + 1) == InputHead(req, n) + req.inputs[n].security
    ensures InputHead(req, |req.inputs|) == |req.transfers| + SumSecurity(req.inputs)
  {
    assert req.inputs[..n + 1] == req.inputs[..n] + [req.inputs[n]];
    SumSecurityAppend(req.inputs[..n], [req.inputs[n]]);
    assert SumSecurity([req.inputs[n]]) == req.inputs[n].security;
    assert req.inputs[..|req.inputs|] == req.inputs;
  }

  /** The layout of the bundle `_signTransaction` builds: the transfers first,
      one transaction each; then each input as a spending transaction followed
      by its zero-value continuations, one run after another; the remainder
      last. Every transaction carries its own index, the last index, the one
      bundle hash, the timestamp and an all-'9' signature fragment. */
  lemma BuildBundleLayout(req: Request, timestamp: uint32, hash: seq<Entry> -> string)
    requires SupportedShape(req)
    ensures var r := BuildBundle(req, timestamp, hash);
      && (forall k :: 0 <= k < |r| ==>
            r[k].currentIndex == k && r[k].lastIndex == |r| - 1 && r[k].bundle == r[0].bundle
            && r[k].timestamp == timestamp && r[k].signatureMessageFragment == Some(EMPTY_SIGNATURE_FRAGMENT))
      && (forall k :: 0 <= k < |req.transfers| ==>
            r[k].address == req.transfers[k].address && r[k].value == req.transfers[k].value
            && r[k].obsoleteTag == req.transfers[k].tag)
      && InputHead(req, 0) == |req.transfers|
      && (forall n :: 0 <= n < |req.inputs| ==>
            SpendsInput(r, InputHead(req, n), req.inputs[n])
            && InputHead(req, n + 1) == InputHead(req, n) + req.inputs[n].security)
      && InputHead(req, |req.inputs|) == |r| - (if req.remainder.Some? then 1 else 0)
      && (req.remainder.Some? ==>
            r[|r| - 1].address == req.remainder.value.address
            && r[|r| - 1].value == req.remainder.value.value
            && r[|r| - 1].obsoleteTag == EMPTY_TAG)
  {
    var all := Entries(req, timestamp);
    var r := BuildBundle(req, timestamp, hash);
    EntriesLayout(req, timestamp);
    var filled := AddEmptyFragments(all);
    assert r == Finalize(filled, hash);
    assert SameTransactions(all, r) by {
      forall k | 0 <= k < |all|
        ensures r[k].address == all[k].address && r[k].value == all[k].value
          && r[k].obsoleteTag == all[k].obsoleteTag && r[k].tag == all[k].tag
      {
        assert r[k] == filled[k].(currentIndex := k, lastIndex := |r| - 1, bundle := r[0].bundle);
      }
    }
    forall k | 0 <= k < |r|
      ensures r[k].timestamp == timestamp && r[k].signatureMessageFragment == Some(EMPTY_SIGNATURE_FRAGMENT)
    {
      assert r[k] == filled[k].(currentIndex := k, lastIndex := |r| - 1, bundle := r[0].bundle);
      assert all[k].timestamp == timestamp;
    }
    forall n | 0 <= n < |req.inputs|
      ensures SpendsInput(r, InputHead(req, n), req.inputs[n])
        && InputHead(req, n + 1) == InputHead(req, n) + req.inputs[n].security
    {
      SpendsInputCarriesOver(all, r, InputHead(req, n), req.inputs[n]);
      InputHeadsStep(req, n);
    }
    assert req.inputs[..|req.inputs|] == req.inputs;
    assert req.inputs[..0] == [];
  }
}
