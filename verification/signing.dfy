/** Signing a bundle against a device that cooperates: where the fragments of
    the signatures the device returns end up (`_getSignatureFragments` and
    `_addSignatureFragmentsToBundle` on the bundle `_signTransaction` built). */
module Signing {

  import opened Bytes
  import opened Wrappers
  import opened Codec
  import opened Transport
  import opened Bundle
  import opened Fragments
  import opened Conversation

  // ---- a cooperating device ----

  /** The chunks of one signature, joined. */
  function Concat(chunks: seq<string>): string
  {
    if chunks == [] then "" else chunks[0] + Concat(chunks[1..])
  }

  /** The replies a device gives for one signature: one SIGN response per
      chunk, each but the last saying that more fragments remain. */
  function SignScript(chunks: seq<string>): seq<Reply>
  {
    if chunks == [] then [] else [ChunkReply(chunks)] + SignScript(chunks[1..])
  }

  /** The reply carrying the first of `chunks`. */
  function ChunkReply(chunks: seq<string>): Reply
    requires chunks != []
  {
    Response(SignResponse(SignChunk(chunks[0], if |chunks| == 1 then 0 else 1)))
  }

  /** The replies for the signatures from `from` on, one after the other. */
  function Scripts(sigs: seq<seq<string>>, from: nat): seq<Reply>
    requires from <= |sigs|
    decreases |sigs| - from
  {
    if from == |sigs| then [] else SignScript(sigs[from]) + Scripts(sigs, from + 1)
  }

  /** Chunks the device can send: 243 characters each, one byte per character. */
  predicate Sendable(chunks: seq<string>)
  {
    forall k :: 0 <= k < |chunks| ==> |chunks[k]| == SIGNATURE_CHUNK_LENGTH && IsByteString(chunks[k])
  }

  /** The first SIGN exchange against such a device reads the first chunk. */
  lemma SignConvOfScript(index: uint32, chunks: seq<string>, rest: seq<Reply>)
    requires chunks != [] && Sendable(chunks)
    ensures SignConv(index, SignScript(chunks) + rest)
         == Conv(Ok(SignChunk(chunks[0], if |chunks| == 1 then 0 else 1)), [SignCommand(index)],
                 SignScript(chunks[1..]) + rest)
  {
    var chunk := SignChunk(chunks[0], if |chunks| == 1 then 0 else 1);
    var later := SignScript(chunks[1..]) + rest;
    var p := SignScript(chunks) + rest;
    var head := [ChunkReply(chunks)];
    assert SignScript(chunks) == head + SignScript(chunks[1..]);
    AppendAssociates(head, SignScript(chunks[1..]), rest);
    assert NextReply(p) == Response(SignResponse(chunk));
    assert Later(p) == later;
    assert ReadSignResponse(SignResponse(chunk)) == Ok(chunk) by {
      SignResponseRoundTrip(chunk, []);
      assert SignResponse(chunk) + [] == SignResponse(chunk);
    }
  }

  /** Collecting a signature from a device that sends it chunk by chunk sends
      one SIGN command per chunk, reads exactly those replies, and yields the
      chunks joined. */
  lemma {:induction false} CollectSignatureOfScript(index: uint32, signature: string, chunks: seq<string>,
                                                    rest: seq<Reply>)
    requires chunks != [] && Sendable(chunks)
    ensures var c := CollectSignature(index, signature, SignScript(chunks) + rest);
      c.result == Ok(signature + Concat(chunks)) && c.rest == rest
      && c.sent == seq(|chunks|, k => SignCommand(index))
    decreases |chunks|
  {
    SignConvOfScript(index, chunks, rest);
    var c := CollectSignature(index, signature, SignScript(chunks) + rest);
    if |chunks| > 1 {
      assert Sendable(chunks[1..]) by {
        forall k | 0 <= k < |chunks[1..]|
          ensures |chunks[1..][k]| == SIGNATURE_CHUNK_LENGTH && IsByteString(chunks[1..][k])
        {
          assert chunks[1..][k] == chunks[k + 1];
        }
      }
      CollectSignatureOfScript(index, signature + chunks[0], chunks[1..], rest);
      var more := CollectSignature(index, signature + chunks[0], SignScript(chunks[1..]) + rest);
      assert c == Conv(more.result, [SignCommand(index)] + more.sent, more.rest);
      AppendAssociates(signature, chunks[0], Concat(chunks[1..]));
      assert [SignCommand(index)] + seq(|chunks| - 1, k => SignCommand(index))
          == seq(|chunks|, k => SignCommand(index));
    } else {
      assert c == Conv(Ok(signature + chunks[0]), [SignCommand(index)], rest);
      assert chunks[1..] == [];
      assert Concat(chunks) == chunks[0] + "";
      assert chunks[0] + "" == chunks[0];
      assert [SignCommand(index)] == seq(1, k => SignCommand(index));
    }
  }

  /** A signature the device can deliver for a transaction of security level
      `security`: sendable chunks, at least `security` whole fragments, and no
      line terminator. */
  predicate Deliverable(chunks: seq<string>, security: nat)
  {
    chunks != [] && Sendable(chunks)
    && NoLineTerminator(Concat(chunks)) && |Concat(chunks)| >= FRAGMENT_LENGTH * security
  }

  /** Fragment `m` of a signature: its characters `2187 m` to `2187 (m + 1)`. */
  function Piece(sig: string, m: nat): string
  {
    if FRAGMENT_LENGTH * (m + 1) <= |sig| then sig[FRAGMENT_LENGTH * m..FRAGMENT_LENGTH * (m + 1)] else ""
  }

  /** `_getSignatureFragments` against such a device: the fragments are the
      consecutive pieces of the signature, at least `security` of them. */
  lemma FragmentsOfScript(index: uint32, chunks: seq<string>, security: nat, rest: seq<Reply>)
    requires 1 <= security && Deliverable(chunks, security)
    ensures var c := SignatureFragmentsConv(index, SignScript(chunks) + rest);
      && c.rest == rest && c.sent == seq(|chunks|, k => SignCommand(index))
      && c.result.Ok? && c.result.value.Some?
      && |c.result.value.value| >= security
      && forall m :: 0 <= m < security ==> c.result.value.value[m] == Piece(Concat(chunks), m)
  {
    CollectSignatureOfScript(index, "", chunks, rest);
    var sig := Concat(chunks);
    assert "" + sig == sig;
    MatchAllCutsPlainSignature(sig);
    assert |sig| / FRAGMENT_LENGTH >= security;
    forall m | 0 <= m < security ensures MatchAll(sig)[m] == Piece(sig, m) {
      assert FRAGMENT_LENGTH * (m + 1) <= FRAGMENT_LENGTH * security;
    }
  }

  // ---- putting one signature in place ----

  /** The `security - 1` transactions after `h` are zero-value continuations
      of its address. */
  predicate Continues(E: seq<Entry>, h: nat, security: nat)
  {
    h + security <= |E|
    && forall j :: h < j < h + security ==> E[j].address == E[h].address && E[j].value == 0
  }

  /** With enough fragments, a spending transaction and its continuations
      receive the fragments in order, and signing resumes right after them. */
  lemma SignAtAssignsInOrder(E: seq<Entry>, i: nat, fragments: seq<string>, security: nat)
    requires i < |E| && E[i].value < 0 && 1 <= security
    requires Continues(E, i, security) && |fragments| >= security
    ensures var r := SignAt(E, i, fragments, security);
      && !r.stopped && r.last == i + security - 1
      && OnlyFragmentsDiffer(E, r.entries) && KeepsPrefixAndPayments(E, r.entries, i)
      && forall m :: 0 <= m < security ==> r.entries[i + m].signatureMessageFragment == Some(fragments[m])
  {
    var (f, q) := Shift(fragments);
    var address := E[i].address;
    var E1 := E[i := E[i].(signatureMessageFragment := f)];
    FillMetaAssignsInOrder(E1, i, address, q, 1, security);
    FillMetaTouchesOnlyContinuations(E1, i, address, q, 1, security);
    SignAtChangesOnlyFragments(E, i, fragments, security);
    var r := SignAt(E, i, fragments, security);
    forall m | 0 <= m < security ensures r.entries[i + m].signatureMessageFragment == Some(fragments[m]) {
      if m > 0 {
        assert q[i + m - i - 1] == fragments[m];
      }
    }
  }

  // ---- every signature in place ----

  /** From position `i` on, the spending transactions of `E` are exactly
      those at `heads[from..]`, in increasing order and at least `security`
      apart, each followed by its continuations. */
  predicate SpendingRuns(E: seq<Entry>, i: nat, heads: seq<nat>, from: nat, security: nat)
    requires from <= |heads|
  {
    (forall t :: from <= t < |heads| ==>
       i <= heads[t] < |E| && E[heads[t]].value < 0 && Continues(E, heads[t], security))
    && (forall t, u :: from <= t < u < |heads| ==> heads[t] + security <= heads[u])
    && NoSpending(E, i, if from == |heads| then |E| else heads[from])
    && (forall t {:trigger NextHead(heads, t, |E|)} :: from <= t < |heads| ==>
          NoSpending(E, heads[t] + 1, NextHead(heads, t, |E|)))
  }

  /** No transaction from `from` up to (not including) `to` spends. */
  predicate NoSpending(E: seq<Entry>, from: nat, to: nat)
  {
    forall k :: from <= k < to && k < |E| ==> E[k].value >= 0
  }

  /** The head after `heads[t]`, or `end` after the last. */
  function NextHead(heads: seq<nat>, t: nat, end: nat): nat
    requires t < |heads|
  {
    if t + 1 < |heads| then heads[t + 1] else end
  }

  /** Heads that are transaction indices. */
  predicate Indices(heads: seq<nat>, from: nat)
  {
    forall t :: from <= t < |heads| ==> heads[t] < TWO_TO_32
  }

  /** The SIGN commands for the signatures from `from` on, one per chunk, each
      with the index of its spending transaction. */
  function SignRequests(heads: seq<nat>, sigs: seq<seq<string>>, from: nat): seq<Command>
    requires |heads| == |sigs| && from <= |heads| && Indices(heads, from)
    decreases |heads| - from
  {
    if from == |heads| then []
    else seq(|sigs[from]|, k => SignCommand(heads[from])) + SignRequests(heads, sigs, from + 1)
  }

  /** Transactions `h` to `h + security - 1` carry the fragments of `sig`, in
      order. */
  predicate Signed(F: seq<Entry>, h: nat, security: nat, sig: string)
  {
    h + security <= |F|
    && forall m :: 0 <= m < security ==> F[h + m].signatureMessageFragment == Some(Piece(sig, m))
  }

  /** The first run starts at the first spending transaction from `i`. */
  lemma RunsStartAt(E: seq<Entry>, i: nat, heads: seq<nat>, from: nat, security: nat)
    requires from <= |heads| && SpendingRuns(E, i, heads, from, security)
    ensures i >= |E| ==> from == |heads|
    ensures i < |E| && E[i].value < 0 ==> from < |heads| && heads[from] == i
  {
    if from < |heads| {
      assert i <= heads[from] < |E|;
    }
    assert NoSpending(E, i, if from == |heads| then |E| else heads[from]);
  }

  /** Signing the first run leaves the later runs where they were. */
  lemma RunsAfterSigning(E: seq<Entry>, F: seq<Entry>, i: nat, heads: seq<nat>, from: nat, security: nat)
    requires 1 <= security && from < |heads| && SpendingRuns(E, i, heads, from, security) && heads[from] == i
    requires OnlyFragmentsDiffer(E, F)
    ensures SpendingRuns(F, i + security, heads, from + 1, security)
  {
    forall t | from + 1 <= t < |heads|
      ensures i + security <= heads[t] < |F| && F[heads[t]].value < 0 && Continues(F, heads[t], security)
    {
      assert heads[from] + security <= heads[t];
      assert Continues(E, heads[t], security);
      forall j | heads[t] < j < heads[t] + security
        ensures F[j].address == F[heads[t]].address && F[j].value == 0
      {
        assert F[j].address == E[j].address;
      }
    }
    assert NoSpending(F, i + security, if from + 1 == |heads| then |F| else heads[from + 1]) by {
      assert NoSpending(E, heads[from] + 1, NextHead(heads, from, |E|));
    }
    forall t | from + 1 <= t < |heads| ensures NoSpending(F, heads[t] + 1, NextHead(heads, t, |F|)) {
      assert NoSpending(E, heads[t] + 1, NextHead(heads, t, |E|));
    }
  }

  /** The replies `p` deliver signature `sigs[t]` to the SIGN commands for
      `heads[t]`, for each `t` from `from` on, one signature after the other,
      and leave `rest`: each collection sends one SIGN per chunk and yields at
      least `security` fragments, the pieces of the signature in order. */
  predicate Delivers(p: seq<Reply>, heads: seq<nat>, sigs: seq<seq<string>>, from: nat, security: nat,
                     rest: seq<Reply>)
    requires |heads| == |sigs| && from <= |heads| && Indices(heads, from)
    decreases |heads| - from
  {
    if from == |heads| then p == rest
    else
      var c := SignatureFragmentsConv(heads[from], p);
      && c.result.Ok? && c.result.value.Some? && |c.result.value.value| >= security
      && (forall m :: 0 <= m < security ==> c.result.value.value[m] == Piece(Concat(sigs[from]), m))
      && c.sent == seq(|sigs[from]|, k => SignCommand(heads[from]))
      && Delivers(c.rest, heads, sigs, from + 1, security, rest)
  }

  /** A device that sends the signatures from `from` on chunk by chunk
      delivers them. */
  lemma {:induction false} ScriptsDeliver(heads: seq<nat>, sigs: seq<seq<string>>, from: nat, security: nat,
                                          rest: seq<Reply>)
    requires |heads| == |sigs| && from <= |heads| && Indices(heads, from)
    requires 1 <= security && forall t :: from <= t < |sigs| ==> Deliverable(sigs[t], security)
    ensures Delivers(Scripts(sigs, from) + rest, heads, sigs, from, security, rest)
    decreases |heads| - from
  {
    if from < |heads| {
      var q := Scripts(sigs, from + 1) + rest;
      assert Scripts(sigs, from) + rest == SignScript(sigs[from]) + q by {
        AppendAssociates(SignScript(sigs[from]), Scripts(sigs, from + 1), rest);
      }
      FragmentsOfScript(heads[from], sigs[from], security, q);
      ScriptsDeliver(heads, sigs, from + 1, security, rest);
    }
  }

  /** Signing from `i`, where the spending transactions are the heads of
      runs, on replies that deliver one signature per run: signing passes,
      reads exactly those replies, sends one SIGN per chunk for each run in
      order, and puts each signature's fragments on its run in order. */
  lemma {:induction false} SignFromSignsRuns(E: seq<Entry>, i: nat, security: nat, heads: seq<nat>,
                                             sigs: seq<seq<string>>, from: nat, p: seq<Reply>, rest: seq<Reply>)
    requires |E| <= TWO_TO_32 && 1 <= security && |sigs| == |heads| && from <= |heads| && Indices(heads, from)
    requires SpendingRuns(E, i, heads, from, security)
    requires Delivers(p, heads, sigs, from, security, rest)
    ensures var r := SignFrom(E, i, security, p);
      && r.outcome == Pass && r.rest == rest && r.sent == SignRequests(heads, sigs, from)
      && OnlyFragmentsDiffer(E, r.entries) && KeepsPrefixAndPayments(E, r.entries, i)
      && forall t :: from <= t < |heads| ==> Signed(r.entries, heads[t], security, Concat(sigs[t]))
    decreases |E| - i, 2
  {
    SignFromChangesOnlyFragments(E, i, security, p);
    RunsStartAt(E, i, heads, from, security);
    if i >= |E| {
      NothingChanged(E, i);
    } else if E[i].value >= 0 {
      assert SpendingRuns(E, i + 1, heads, from, security) by {
        forall t | from <= t < |heads| ensures i + 1 <= heads[t] {
          assert E[heads[t]].value < 0;
        }
      }
      SignFromSignsRuns(E, i + 1, security, heads, sigs, from, p, rest);
      assert SignFrom(E, i, security, p) == SignFrom(E, i + 1, security, p);
    } else {
      SignsRunAt(E, i, security, heads, sigs, from, p, SignatureFragmentsConv(i, p), rest);
    }
  }

  /** The case of `SignFromSignsRuns` where transaction `i` spends: its run
      is signed first, from the signature the first replies deliver. */
  lemma {:induction false} SignsRunAt(E: seq<Entry>, i: nat, security: nat, heads: seq<nat>,
                                      sigs: seq<seq<string>>, from: nat, p: seq<Reply>,
                                      c: Conv<Option<seq<string>>>, rest: seq<Reply>)
    requires |E| <= TWO_TO_32 && 1 <= security && i < |E| && E[i].value < 0
    requires |sigs| == |heads| && from < |heads| && Indices(heads, from) && heads[from] == i
    requires SpendingRuns(E, i, heads, from, security)
    requires c == SignatureFragmentsConv(i, p) && c.result.Ok? && c.result.value.Some?
    requires |c.result.value.value| >= security
    requires forall m :: 0 <= m < security ==> c.result.value.value[m] == Piece(Concat(sigs[from]), m)
    requires c.sent == seq(|sigs[from]|, k => SignCommand(i))
    requires Delivers(c.rest, heads, sigs, from + 1, security, rest)
    ensures var r := SignFrom(E, i, security, p);
      && r.outcome == Pass && r.rest == rest && r.sent == SignRequests(heads, sigs, from)
      && OnlyFragmentsDiffer(E, r.entries)
      && forall t :: from <= t < |heads| ==> Signed(r.entries, heads[t], security, Concat(sigs[t]))
    decreases |E| - i, 1
  {
    var E1 := SignAt(E, i, c.result.value.value, security).entries;
    assert Continues(E, i, security);
    FirstRunSigned(E, i, security, p, c, Concat(sigs[from]));
    RunsAfterSigning(E, E1, i, heads, from, security);
    SignsLaterRuns(E, E1, i, security, heads, sigs, from, c.sent, c.rest, rest, SignFrom(E, i, security, p));
  }

  /** One step of `SignFrom` at a spending head: the run at `i` receives
      the pieces of the delivered signature, and signing carries on after it. */
  lemma FirstRunSigned(E: seq<Entry>, i: nat, security: nat, p: seq<Reply>,
                       c: Conv<Option<seq<string>>>, sig: string)
    requires |E| <= TWO_TO_32 && i < |E| && E[i].value < 0 && 1 <= security && Continues(E, i, security)
    requires c == SignatureFragmentsConv(i, p) && c.result.Ok? && c.result.value.Some?
    requires |c.result.value.value| >= security
    requires forall m :: 0 <= m < security ==> c.result.value.value[m] == Piece(sig, m)
    ensures var E1 := SignAt(E, i, c.result.value.value, security).entries;
      var more := SignFrom(E1, i + security, security, c.rest);
      && OnlyFragmentsDiffer(E, E1)
      && (forall m :: 0 <= m < security ==> E1[i + m].signatureMessageFragment == Some(Piece(sig, m)))
      && SignFrom(E, i, security, p) == Signing(more.entries, more.outcome, c.sent + more.sent, more.rest)
  {
    var frags := c.result.value.value;
    var fill := SignAt(E, i, frags, security);
    assert !fill.stopped && fill.last + 1 == i + security by {
      SignAtAssignsInOrder(E, i, frags, security);
    }
    var more := SignFrom(fill.entries, i + security, security, c.rest);
    assert SignFrom(E, i, security, p) == Signing(more.entries, more.outcome, c.sent + more.sent, more.rest) by {
      SignFromStep(E, i, security, p, c, fill);
    }
    SignAtAssignsInOrder(E, i, frags, security);
  }

  /** After the run at `i` received the first signature (`E1`), the later
      runs are signed from the replies that follow. */
  lemma {:induction false} SignsLaterRuns(E: seq<Entry>, E1: seq<Entry>, i: nat, security: nat, heads: seq<nat>,
                                          sigs: seq<seq<string>>, from: nat, sent: seq<Command>, q: seq<Reply>,
                                          rest: seq<Reply>, r: Signing)
    requires |E| <= TWO_TO_32 && 1 <= security && i + security <= |E|
    requires |sigs| == |heads| && from < |heads| && Indices(heads, from) && heads[from] == i
    requires SpendingRuns(E1, i + security, heads, from + 1, security)
    requires sent == seq(|sigs[from]|, k => SignCommand(i))
    requires Delivers(q, heads, sigs, from + 1, security, rest)
    requires OnlyFragmentsDiffer(E, E1)
    requires forall m :: 0 <= m < security ==> E1[i + m].signatureMessageFragment == Some(Piece(Concat(sigs[from]), m))
    requires var more := SignFrom(E1, i + security, security, q);
      r == Signing(more.entries, more.outcome, sent + more.sent, more.rest)
    ensures && r.outcome == Pass && r.rest == rest && r.sent == SignRequests(heads, sigs, from)
      && OnlyFragmentsDiffer(E, r.entries)
      && forall t :: from <= t < |heads| ==> Signed(r.entries, heads[t], security, Concat(sigs[t]))
    decreases |E| - i, 0
  {
    SignFromSignsRuns(E1, i + security, security, heads, sigs, from + 1, q, rest);
    var more := SignFrom(E1, i + security, security, q);
    assert r.outcome == more.outcome == Pass && r.rest == more.rest == rest;
    assert r == Signing(more.entries, more.outcome, seq(|sigs[from]|, k => SignCommand(i)) + more.sent, more.rest);
    CombineRuns(E, E1, more, r, i, security, heads, sigs, from);
  }

  /** The bundle after every run is signed, from the bundle after the first
      run and the signing of the later runs. */
  lemma CombineRuns(E: seq<Entry>, E1: seq<Entry>, more: Signing, r: Signing, i: nat, security: nat,
                    heads: seq<nat>, sigs: seq<seq<string>>, from: nat)
    requires |sigs| == |heads| && from < |heads| && Indices(heads, from) && heads[from] == i
    requires r == Signing(more.entries, more.outcome, seq(|sigs[from]|, k => SignCommand(i)) + more.sent, more.rest)
    requires OnlyFragmentsDiffer(E, E1) && i + security <= |E|
    requires forall m :: 0 <= m < security ==> E1[i + m].signatureMessageFragment == Some(Piece(Concat(sigs[from]), m))
    requires more.sent == SignRequests(heads, sigs, from + 1)
    requires OnlyFragmentsDiffer(E1, more.entries) && KeepsPrefixAndPayments(E1, more.entries, i + security)
    requires forall t :: from + 1 <= t < |heads| ==> Signed(more.entries, heads[t], security, Concat(sigs[t]))
    ensures r.sent == SignRequests(heads, sigs, from) && OnlyFragmentsDiffer(E, r.entries)
    ensures forall t :: from <= t < |heads| ==> Signed(r.entries, heads[t], security, Concat(sigs[t]))
  {
    OnlyFragmentsDifferTransitive(E, E1, more.entries);
    SignedFirstRun(E1, more.entries, i, security, Concat(sigs[from]));
  }

  /** The first run keeps the fragments it was given while later positions
      are signed. */
  lemma SignedFirstRun(E: seq<Entry>, F: seq<Entry>, i: nat, security: nat, sig: string)
    requires |F| == |E| && i + security <= |E| && KeepsPrefixAndPayments(E, F, i + security)
    requires forall m :: 0 <= m < security ==> E[i + m].signatureMessageFragment == Some(Piece(sig, m))
    ensures Signed(F, i, security, sig)
  {
    forall m | 0 <= m < security ensures F[i + m].signatureMessageFragment == Some(Piece(sig, m)) {
      assert F[i + m] == E[i + m];
    }
  }

  // ---- the bundle `_signTransaction` builds ----

  /** Input `n` starts within the first eight transactions. */
  lemma InputHeadBound(req: Request, n: nat)
    requires SupportedShape(req) && n <= |req.inputs|
    ensures InputHead(req, n) < 8
  {
    forall x | x in req.inputs[..n] ensures IsSecurity(x.security) {
      assert x in req.inputs;
    }
    SumSecurityBound(req.inputs[..n]);
  }

  /** Where each input's transactions start. */
  function InputHeads(req: Request): (r: seq<nat>)
    requires SupportedShape(req)
    ensures |r| == |req.inputs| && Indices(r, 0)
    ensures forall n :: 0 <= n < |r| ==> r[n] == InputHead(req, n)
  {
    InputHeadsBound(req);
    seq(|req.inputs|, n requires 0 <= n < |req.inputs| => InputHead(req, n))
  }

  /** Every input starts within the first eight transactions. */
  lemma InputHeadsBound(req: Request)
    requires SupportedShape(req)
    ensures forall n :: 0 <= n <= |req.inputs| ==> InputHead(req, n) < 8
  {
    forall n | 0 <= n <= |req.inputs| ensures InputHead(req, n) < 8 {
      InputHeadBound(req, n);
    }
  }

  /** Runs laid out one after the other from `heads[0]`, with no spending
      before the first and none after the last but a trailing payment. */
  lemma RunsOfLayout(E: seq<Entry>, heads: seq<nat>, security: nat, tail: nat)
    requires 1 <= security && 1 <= |heads| <= 2 && tail <= 1
    requires forall t :: 0 <= t < |heads| ==> Continues(E, heads[t], security) && E[heads[t]].value < 0
    requires |heads| == 2 ==> heads[1] == heads[0] + security
    requires heads[|heads| - 1] + security + tail == |E|
    requires forall k :: 0 <= k < heads[0] ==> E[k].value >= 0
    requires tail == 1 ==> E[|E| - 1].value >= 0
    ensures SpendingRuns(E, 0, heads, 0, security)
  {
    assert NoSpending(E, 0, heads[0]);
    forall t | 0 <= t < |heads| ensures NoSpending(E, heads[t] + 1, NextHead(heads, t, |E|)) {
      var next := NextHead(heads, t, |E|);
      assert next == heads[t] + security || (next == |E| == heads[t] + security + tail);
      NoSpendingAfterRun(E, heads[t], security, next);
    }
  }

  /** Nothing spends after a run up to `next`, when what lies between the
      run's end and `next` is at most a last transaction that pays. */
  lemma NoSpendingAfterRun(E: seq<Entry>, h: nat, security: nat, next: nat)
    requires Continues(E, h, security) && h + security <= next <= |E|
    requires next > h + security ==> next == |E| == h + security + 1 && E[|E| - 1].value >= 0
    ensures NoSpending(E, h + 1, next)
  {
    forall k | h + 1 <= k < next && k < |E| ensures E[k].value >= 0 {
      if k < h + security {
        assert E[k].value == 0;
      }
    }
  }

  /** In the bundle built from a request whose inputs all carry the session's
      security level, whose transfers and remainder pay out, and whose inputs
      are funded, the spending transactions are exactly the inputs' first
      transactions, each followed by its continuations. */
  lemma BuiltBundleRuns(req: Request, timestamp: uint32, hash: seq<Entry> -> string, security: nat)
    requires SupportedShape(req) && 1 <= security
    requires forall n :: 0 <= n < |req.inputs| ==> req.inputs[n].security == security && req.inputs[n].balance > 0
    requires forall k :: 0 <= k < |req.transfers| ==> req.transfers[k].value >= 0
    requires req.remainder.Some? ==> req.remainder.value.value >= 0
    ensures SpendingRuns(BuildBundle(req, timestamp, hash), 0, InputHeads(req), 0, security)
  {
    var E := BuildBundle(req, timestamp, hash);
    var heads := InputHeads(req);
    BuildBundleLayout(req, timestamp, hash);
    forall t | 0 <= t < |heads| ensures E[heads[t]].value < 0 && Continues(E, heads[t], security) {
      assert SpendsInput(E, InputHead(req, t), req.inputs[t]);
    }
    assert |heads| == 2 ==> heads[1] == heads[0] + security;
    assert heads[|heads| - 1] + security == InputHead(req, |req.inputs|);
    RunsOfLayout(E, heads, security, if req.remainder.Some? then 1 else 0);
  }

  /** Signing the bundle `_signTransaction` built, against a device that
      delivers one signature per input: signing passes, sends one SIGN per
      chunk for each input in order, each with the index of the input's first
      transaction, and every input's first transaction and its
      continuations receive its signature's fragments in order; nothing but
      signature fragments changes. */
  lemma SignBuiltBundle(req: Request, timestamp: uint32, hash: seq<Entry> -> string, security: nat,
                        sigs: seq<seq<string>>, rest: seq<Reply>)
    requires SupportedShape(req) && 1 <= security
    requires forall n :: 0 <= n < |req.inputs| ==> req.inputs[n].security == security && req.inputs[n].balance > 0
    requires forall k :: 0 <= k < |req.transfers| ==> req.transfers[k].value >= 0
    requires req.remainder.Some? ==> req.remainder.value.value >= 0
    requires |sigs| == |req.inputs| && forall n :: 0 <= n < |sigs| ==> Deliverable(sigs[n], security)
    ensures var E := BuildBundle(req, timestamp, hash);
      var r := SignFrom(E, 0, security, Scripts(sigs, 0) + rest);
      && r.outcome == Pass && r.rest == rest
      && r.sent == SignRequests(InputHeads(req), sigs, 0)
      && OnlyFragmentsDiffer(E, r.entries)
      && forall n :: 0 <= n < |req.inputs| ==> Signed(r.entries, InputHead(req, n), security, Concat(sigs[n]))
  {
    BuiltBundleRuns(req, timestamp, hash, security);
    var E := BuildBundle(req, timestamp, hash);
    BuildBundleLayout(req, timestamp, hash);
    ScriptsDeliver(InputHeads(req), sigs, 0, security, rest);
    SignFromSignsRuns(E, 0, security, InputHeads(req), sigs, 0, Scripts(sigs, 0) + rest, rest);
  }
}
