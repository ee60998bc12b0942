/**
 A committee member's node: its signing side, which answers proposals through the
 slot counter, and its aggregating side, which turns a quorum into a record. The
 network, the record cell and the clock are parameters of each call.
 */
module CommitteeNode {
  import opened Prelude
  import opened ByteStrings
  import opened Anchor
  import opened Statement
  import opened Signers
  import opened StatusList
  import opened Verifiers
  import opened Agreement
  import opened Nodes
  import opened Snapshot
  import SlotCounter
  import SlotProtocol
  import Ssz

  datatype Proposal = Proposal(version: u32, list: seq<Bytes>)

  datatype Abstention =
    | VersionsExhausted
    | RecordUnreadable
    | NotNext(expected: u32)
    | NoSlot
    | SignerRefused(reason: SlotCounter.SignerError)

  /** The version that follows the published record, whatever state that is in. */
  function NextVersion(form: Form, current: Option<Bytes>): Result<u32, Abstention> {
    if current.None? then Ok(0) else
    var record := Decoded(form, current.value);
    if record.None? then Err(RecordUnreadable)
    else if record.value.Version() == U32_MAX then Err(VersionsExhausted)
    else Ok(record.value.Version() + 1)
  }

  /** Why a member abstains before any slot is touched; otherwise the slot to sign at. */
  function Policy(c: Committee, form: Form, current: Option<Bytes>, version: u32): Result<u32, Abstention> {
    var expected := NextVersion(form, current);
    if expected.Err? then Err(expected.error)
    else if version != expected.value then Err(NotNext(expected.value))
    else
      var slot := SlotFor(c.genesis, version);
      if slot.None? then Err(NoSlot) else Ok(slot.value)
  }

  /** The next version is 0 over an empty cell, and v + 1 over a record that decodes to version v. */
  lemma NextVersionExactly(form: Form, current: Option<Bytes>, next: u32)
    ensures NextVersion(form, current) == Ok(next) <==>
      && (current.None? ==> next == 0)
      && (current.Some? ==>
            var read := Decoded(form, current.value); read.Some? && next == read.value.Version() + 1)
    ensures NextVersion(form, current) == Err(RecordUnreadable) <==>
      current.Some? && Decoded(form, current.value).None?
  {
    hide Decoded;
  }

  /** The version signed is the next one and no other, and the slot signed at is genesis + version. */
  lemma PolicyExactly(c: Committee, form: Form, current: Option<Bytes>, version: u32, slot: u32)
    ensures Policy(c, form, current, version) == Ok(slot) <==>
      && slot == c.genesis + version
      && (current.None? ==> version == 0)
      && (current.Some? ==>
            var read := Decoded(form, current.value); read.Some? && version == read.value.Version() + 1)
  {
    hide Decoded;
  }

  /** The arrivals that count, up to `t` of them. */
  function Counted(x: Crypto, c: Committee, message: Bytes, slot: u32, arrivals: SignedPairs, t: nat): (q: SignedPairs)
    ensures |q| <= t
    decreases |arrivals|
  {
    if arrivals == [] || t == 0 then []
    else if Signs(x, c, message, slot, arrivals[0]) then
      [arrivals[0]] + Counted(x, c, message, slot, arrivals[1..], t - 1)
    else Counted(x, c, message, slot, arrivals[1..], t)
  }

  lemma CountedNext(x: Crypto, c: Committee, message: Bytes, slot: u32, arrivals: SignedPairs, next: nat, t: nat)
    requires next < |arrivals| && t > 0
    ensures Counted(x, c, message, slot, arrivals[next..], t) ==
      if Signs(x, c, message, slot, arrivals[next]) then
        [arrivals[next]] + Counted(x, c, message, slot, arrivals[next + 1..], t - 1)
      else Counted(x, c, message, slot, arrivals[next + 1..], t)
  {
    hide Signs;
    assert arrivals[next..][1..] == arrivals[next + 1..];
  }

  lemma CountedDone(x: Crypto, c: Committee, message: Bytes, slot: u32, arrivals: SignedPairs, t: nat)
    requires arrivals == [] || t == 0
    ensures Counted(x, c, message, slot, arrivals, t) == []
  {
  }

  lemma {:induction false} CountedAreGood(x: Crypto, c: Committee, message: Bytes, slot: u32,
                                          arrivals: SignedPairs, t: nat)
    requires Distinct(Indices(arrivals))
    ensures var q := Counted(x, c, message, slot, arrivals, t);
      && AllSign(x, c, message, slot, q) && Distinct(Indices(q))
      && (forall p <- q :: p in arrivals)
      && (|q| < t ==> forall p <- arrivals :: Signs(x, c, message, slot, p) ==> p in q)
    decreases |arrivals|
  {
    if arrivals != [] && t > 0 {
      hide Signs;
      var first, rest := arrivals[0], arrivals[1..];
      assert Indices(rest) == Indices(arrivals)[1..];
      assert arrivals == [first] + rest;
      var keep := Signs(x, c, message, slot, first);
      var tail := Counted(x, c, message, slot, rest, if keep then t - 1 else t);
      CountedAreGood(x, c, message, slot, rest, if keep then t - 1 else t);
      if keep {
        forall p | p in tail
          ensures p.index != first.index
        {
          var j :| 0 <= j < |rest| && rest[j] == p;
          assert Indices(arrivals)[0] != Indices(arrivals)[j + 1];
        }
        forall j | 0 <= j < |tail|
          ensures Indices(tail)[j] != first.index
        {
          assert tail[j] in tail;
        }
        assert Indices([first] + tail) == [first.index] + Indices(tail);
      }
    }
  }

  /** `q` stands at `places` among the arrivals, in order; a good arrival elsewhere came after `t` others. */
  predicate CountedAt(x: Crypto, c: Committee, message: Bytes, slot: u32, arrivals: SignedPairs, t: nat,
                      q: SignedPairs, places: seq<nat>)
  {
    && |places| == |q| && (forall j, k | 0 <= j < k < |places| :: places[j] < places[k])
    && (forall k | 0 <= k < |places| :: places[k] < |arrivals| && q[k] == arrivals[places[k]])
    && (forall i | 0 <= i < |arrivals| && i !in places && Signs(x, c, message, slot, arrivals[i]) ::
          |q| == t && forall p <- places :: p < i)
  }

  /** What counts is the first that is good, in the order it arrived. */
  lemma {:induction false} CountedInOrder(x: Crypto, c: Committee, message: Bytes, slot: u32,
                                          arrivals: SignedPairs, t: nat)
    returns (places: seq<nat>)
    ensures CountedAt(x, c, message, slot, arrivals, t, Counted(x, c, message, slot, arrivals, t), places)
    decreases |arrivals|
  {
    hide Signs, CountedAt;
    if arrivals == [] || t == 0 {
      places := NoneCounted(x, c, message, slot, arrivals, t);
    } else {
      var first, rest := arrivals[0], arrivals[1..];
      var keep := Signs(x, c, message, slot, first);
      var less := if keep then t - 1 else t;
      var later := CountedInOrder(x, c, message, slot, rest, less);
      assert arrivals == [first] + rest;
      var q := Counted(x, c, message, slot, rest, less);
      if keep {
        CountedKeep(x, c, message, slot, first, rest, less, q, later);
        places := [0] + Shifted(later);
      } else {
        CountedSkip(x, c, message, slot, first, rest, less, q, later);
        places := Shifted(later);
      }
    }
  }

  lemma NoneCounted(x: Crypto, c: Committee, message: Bytes, slot: u32, arrivals: SignedPairs, t: nat)
    returns (places: seq<nat>)
    requires arrivals == [] || t == 0
    ensures CountedAt(x, c, message, slot, arrivals, t, [], places)
  {
    places := [];
  }

  function Shifted(places: seq<nat>): (r: seq<nat>)
    ensures |r| == |places|
  {
    seq(|places|, k requires 0 <= k < |places| => places[k] + 1)
  }

  lemma CountedKeep(x: Crypto, c: Committee, message: Bytes, slot: u32, first: Pair<Bytes>, rest: SignedPairs,
                    t: nat, q: SignedPairs, later: seq<nat>)
    requires CountedAt(x, c, message, slot, rest, t, q, later)
    ensures CountedAt(x, c, message, slot, [first] + rest, t + 1, [first] + q, [0] + Shifted(later))
  {
    hide Signs;
    var arrivals, places := [first] + rest, [0] + Shifted(later);
    forall i | 0 <= i < |arrivals| && i !in places && Signs(x, c, message, slot, arrivals[i])
      ensures |q| == t && forall p <- places :: p < i
    {
      assert places[0] == 0 && arrivals[i] == rest[i - 1];
      NotShifted(later, places, i);
    }
  }

  lemma CountedSkip(x: Crypto, c: Committee, message: Bytes, slot: u32, first: Pair<Bytes>, rest: SignedPairs,
                    t: nat, q: SignedPairs, later: seq<nat>)
    requires CountedAt(x, c, message, slot, rest, t, q, later) && !Signs(x, c, message, slot, first)
    ensures CountedAt(x, c, message, slot, [first] + rest, t, q, Shifted(later))
  {
    hide Signs;
    var arrivals, places := [first] + rest, Shifted(later);
    forall i | 0 <= i < |arrivals| && i !in places && Signs(x, c, message, slot, arrivals[i])
      ensures |q| == t && forall p <- places :: p < i
    {
      assert i > 0 && arrivals[i] == rest[i - 1];
      NotShifted(later, places, i);
    }
  }

  lemma NotShifted(later: seq<nat>, places: seq<nat>, i: nat)
    requires i > 0 && i !in places && (places == Shifted(later) || places == [0] + Shifted(later))
    ensures i - 1 !in later
    ensures (forall p <- later :: p < i - 1) ==> forall p <- places :: p < i
  {
    forall k | 0 <= k < |later|
      ensures later[k] + 1 in places
    {
      assert Shifted(later)[k] == later[k] + 1;
      assert places[|places| - |later| + k] == later[k] + 1;
    }
    forall p | p in places && p > 0
      ensures p - 1 in later
    {
      var k :| 0 <= k < |places| && places[k] == p;
      assert later[k - (|places| - |later|)] == p - 1;
    }
  }

  // ------------------------------------------------------------- the record published

  /** The foreign aggregator: signatures on one message at one slot, to proof bytes; none if it panics. */
  datatype Prover = Prover(prove: (SignedPairs, Bytes, u32) -> Option<Bytes>)

  datatype Built = Unbuilt | Crashed | Built(bytes: Bytes)

  /** `build_record`; a signer-only member has no prover. */
  function Record(x: Crypto, c: Committee, form: Form, prover: Option<Prover>,
                  list: seq<Bytes>, version: u32, slot: u32, quorum: SignedPairs): Built
  {
    match form
    case RawForm =>
      var r := Constructed(WotsXmss, list, version, |c.members|, quorum);
      if r.Err? then Unbuilt else Encoded(RawToBytes(r.value))
    case SnarkForm =>
      if prover.None? then Unbuilt else
      var proof := prover.value.prove(quorum, MessageOf(x, c, WotsXmss, list, version), slot);
      if proof.None? then Crashed else Encoded(SnarkToBytes(SnarkRecord(WotsXmss, list, version, proof.value)))
  }

  function Encoded(bytes: Option<Bytes>): Built {
    if bytes.None? then Unbuilt else Built(bytes.value)
  }

  ghost predicate ProvesFor(x: Crypto, c: Committee, prover: Prover,
                            list: seq<Bytes>, version: u32, slot: u32, quorum: SignedPairs)
  {
    var raw := Constructed(WotsXmss, list, version, |c.members|, quorum);
    var proof := prover.prove(quorum, MessageOf(x, c, WotsXmss, list, version), slot);
    raw.Ok? && slot == c.genesis + version && proof.Some? ==>
      var agg := ProofOf(x, SnarkRecord(WotsXmss, list, version, proof.value));
      agg.Some? && AggregateOf(x, c, raw.value, agg.value)
  }

  /** What the prover hands over is the ideal aggregate of the quorum it was given. */
  ghost predicate IdealProver(x: Crypto, c: Committee, prover: Option<Prover>) {
    prover.Some? ==> forall list, version, slot, quorum :: ProvesFor(x, c, prover.value, list, version, slot, quorum)
  }

  lemma GoodQuorumVerifies(x: Crypto, c: Committee, list: seq<Bytes>, version: u32, quorum: SignedPairs)
    requires Coherent(x.hashes.sha3, c) && Ssz.AllOfSize(list, ENTRY_BYTES) && c.genesis + version <= U32_MAX
    requires Distinct(Indices(quorum)) && |quorum| >= c.t
    requires forall p <- quorum :: p.index < |c.members| && |p.signature| == SIGNATURE_BYTES
    requires AllSign(x, c, MessageOf(x, c, WotsXmss, list, version), c.genesis + version, quorum)
    ensures var r := Constructed(WotsXmss, list, version, |c.members|, quorum);
      r.Ok? && r.value.WellFormed() && |r.value.signers| == |c.members| && VerifyRaw(x, c, r.value)
  {
    hide MessageOf, AllSign, Constructed, VerifyRaw;
    forall i | 0 <= i < |quorum|
      ensures Indices(quorum)[i] < |c.members|
    {
      assert quorum[i] in quorum;
    }
    ConstructedExactly(WotsXmss, list, version, |c.members|, quorum);
    RawExactly(x, c, WotsXmss, list, version, |c.members|, quorum);
  }

  /** Whatever arrives, a record built from what was counted is accepted under the anchor. */
  lemma QuorumRecordVerifies(x: Crypto, c: Committee, form: Form, prover: Option<Prover>,
                             list: seq<Bytes>, version: u32, arrivals: SignedPairs)
    requires Coherent(x.hashes.sha3, c) && Ssz.AllOfSize(list, ENTRY_BYTES) && c.genesis + version <= U32_MAX
    requires form.SnarkForm? ==> IdealProver(x, c, prover)
    requires Distinct(Indices(arrivals))
    requires forall p <- arrivals :: p.index < |c.members| && |p.signature| == SIGNATURE_BYTES
    ensures var slot := c.genesis + version;
      var quorum := Counted(x, c, MessageOf(x, c, WotsXmss, list, version), slot, arrivals, c.t);
      var bytes := Record(x, c, form, prover, list, version, slot, quorum);
      |quorum| >= c.t && bytes.Built? ==>
        Verdict(x, c, form, bytes.bytes) == Some(version) && Decoded(form, bytes.bytes).value.List() == list
  {
    hide MessageOf, AllSign, Counted, Constructed, VerifyRaw, VerifySnark, Coherent, AggregateOf, IdealProver,
         RawFromBytes, SnarkFromBytes, RawToBytes, SnarkToBytes, ProofOf;
    var slot := c.genesis + version;
    var message := MessageOf(x, c, WotsXmss, list, version);
    var quorum := Counted(x, c, message, slot, arrivals, c.t);
    var bytes := Record(x, c, form, prover, list, version, slot, quorum);
    CountedAreGood(x, c, message, slot, arrivals, c.t);
    if |quorum| >= c.t && bytes.Built? {
      GoodQuorumVerifies(x, c, list, version, quorum);
      var raw := Constructed(WotsXmss, list, version, |c.members|, quorum).value;
      ConstructedFrom(WotsXmss, list, version, |c.members|, quorum);
      match form {
        case RawForm => RawDecodeOfEncode(raw);
        case SnarkForm =>
          var s := SnarkRecord(WotsXmss, list, version, prover.value.prove(quorum, message, slot).value);
          ProverMeets(x, c, prover.value, list, version, slot, quorum);
          SnarkDecodeOfEncode(s);
          FormsDecideAlike(x, c, raw, s);
      }
    }
  }

  /** A good quorum becomes a raw record exactly when there is room for it. */
  lemma RawBuildsExactly(x: Crypto, c: Committee, prover: Option<Prover>,
                         list: seq<Bytes>, version: u32, slot: u32, quorum: SignedPairs)
    requires |c.members| <= MAX_COMMITTEE_SIZE && Ssz.AllOfSize(list, ENTRY_BYTES) && Distinct(Indices(quorum))
    requires forall p <- quorum :: p.index < |c.members| && |p.signature| == SIGNATURE_BYTES
    ensures var built := Record(x, c, RawForm, prover, list, version, slot, quorum);
      && !built.Crashed?
      && (built.Built? <==>
            17 + ENTRY_BYTES * |list| + |c.members| / 8 + 1 + SIGNATURE_BYTES * |quorum| <= U32_MAX)
      && (built.Built? ==>
            var r := Decoded(RawForm, built.bytes);
            r.Some? && r.value.List() == list && r.value.Version() == version
            && multiset(r.value.raw.Evidence()) == multiset(quorum))
  {
    hide Constructed, RawFromBytes, RawToBytes, SignerIndices, RawRecord.Evidence;
    forall i | 0 <= i < |quorum|
      ensures Indices(quorum)[i] < |c.members|
    {
      assert quorum[i] in quorum;
    }
    ConstructedExactly(WotsXmss, list, version, |c.members|, quorum);
    ConstructedFrom(WotsXmss, list, version, |c.members|, quorum);
    var r := Constructed(WotsXmss, list, version, |c.members|, quorum).value;
    RawEncodesExactly(r);
    if RawToBytes(r).Some? {
      RawDecodeOfEncode(r);
    }
  }

  /** The SNARK form needs a prover that returns, and room for the proof; one that does not return is the only crash. */
  lemma SnarkBuildsExactly(x: Crypto, c: Committee, prover: Option<Prover>,
                           list: seq<Bytes>, version: u32, slot: u32, quorum: SignedPairs)
    requires Ssz.AllOfSize(list, ENTRY_BYTES)
    ensures var built := Record(x, c, SnarkForm, prover, list, version, slot, quorum);
      var proof :=
        if prover.None? then None else prover.value.prove(quorum, MessageOf(x, c, WotsXmss, list, version), slot);
      && (built.Crashed? <==> prover.Some? && proof.None?)
      && (built.Built? <==> proof.Some? && 13 + ENTRY_BYTES * |list| + |proof.value| <= U32_MAX)
      && (built.Built? ==>
            Decoded(SnarkForm, built.bytes) == Some(Snark(SnarkRecord(WotsXmss, list, version, proof.value))))
  {
    hide MessageOf, SnarkFromBytes, SnarkToBytes;
    if prover.Some? {
      var proof := prover.value.prove(quorum, MessageOf(x, c, WotsXmss, list, version), slot);
      if proof.Some? {
        var s := SnarkRecord(WotsXmss, list, version, proof.value);
        SnarkEncodesExactly(s);
        if SnarkToBytes(s).Some? {
          SnarkDecodeOfEncode(s);
        }
      }
    }
  }

  lemma ProverMeets(x: Crypto, c: Committee, prover: Prover,
                    list: seq<Bytes>, version: u32, slot: u32, quorum: SignedPairs)
    requires IdealProver(x, c, Some(prover))
    requires Constructed(WotsXmss, list, version, |c.members|, quorum).Ok? && slot == c.genesis + version
    requires prover.prove(quorum, MessageOf(x, c, WotsXmss, list, version), slot).Some?
    ensures var raw := Constructed(WotsXmss, list, version, |c.members|, quorum).value;
      var proof := prover.prove(quorum, MessageOf(x, c, WotsXmss, list, version), slot).value;
      var agg := ProofOf(x, SnarkRecord(WotsXmss, list, version, proof));
      |raw.signers| == |c.members| && agg.Some? && AggregateOf(x, c, raw, agg.value)
  {
    hide MessageOf, ProofOf, AggregateOf;
    assert ProvesFor(x, c, prover, list, version, slot, quorum);
  }

  // ------------------------------------------------------------------ list updates

  predicate EntrySized(request: Request) {
    (request.Issue? || request.Revoke?) ==> |request.entry| == ENTRY_BYTES
  }

  function ListOf(form: Form, current: Option<Bytes>): seq<Bytes> {
    if current.None? then [] else
    var record := Decoded(form, current.value);
    if record.None? then [] else record.value.List()
  }

  lemma EditedListIsSized(form: Form, current: Option<Bytes>, request: Request)
    requires EntrySized(request) && Edited(ListOf(form, current), request).Changed?
    ensures Ssz.AllOfSize(Edited(ListOf(form, current), request).list, ENTRY_BYTES)
  {
    hide Decoded;
    if current.Some? && Decoded(form, current.value).Some? {
      DecodedListIsSized(form, current.value);
    }
    var list, edited := ListOf(form, current), Edited(ListOf(form, current), request).list;
    forall i | 0 <= i < |edited|
      ensures |edited[i]| == ENTRY_BYTES
    {
      assert edited[i] in edited;
      assert edited[i] in list || edited[i] == request.entry;
    }
  }

  datatype Outcome = Failed | Panicked | PublishedAs(bytes: Bytes)

  class Node {
    const crypto: Crypto
    const committee: Committee
    const form: Form
    const canAggregate: bool
    const prover: Option<Prover>
    const signer: SlotCounter.SignerNode

    /** The round lock's state: a round that panics while holding it poisons it for good. */
    var poisoned: bool

    constructor (crypto: Crypto, committee: Committee, form: Form, canAggregate: bool, prover: Option<Prover>,
                 signer: SlotCounter.SignerNode)
      ensures this.crypto == crypto && this.committee == committee && this.form == form
      ensures this.canAggregate == canAggregate && this.prover == prover && this.signer == signer && !poisoned
    {
      this.crypto, this.committee, this.form, this.prover, this.signer := crypto, committee, form, prover, signer;
      this.canAggregate, poisoned := canAggregate, false;
    }

    /** The member's signing log. */
    function Log(): seq<SlotProtocol.Signed<Bytes>>
      reads this, signer, signer.counter, signer.counter.host
    {
      signer.counter.host.world.signed
    }

    /** Derive the slot and sign, or abstain; `current` is the record cell as this call read it. */
    method OnProposal(current: Option<Bytes>, proposal: Proposal, fate: SlotCounter.PersistFate,
                      signature: Option<Bytes>)
      returns (r: Result<Bytes, Abstention>)
      requires signer.Valid() && SlotProtocol.Torn(signer.counter.host.env, fate.torn, signer.counter.State())
      modifies signer.counter, signer.counter.host
      ensures signer.Valid() && old(signer.counter.host.log) <= signer.counter.host.log
      ensures r.Ok? <==>
        && (current.None? ==> proposal.version == 0)
        && (current.Some? ==>
              && Decoded(form, current.value).Some?
              && proposal.version == Decoded(form, current.value).value.Version() + 1)
        && old(signer.counter.next) <= committee.genesis + proposal.version <= signer.counter.end
        && old(signer.counter.generation) < U64_MAX && fate.Succeeds() && signature.Some?
      ensures r.Ok? ==>
        && signature == Some(r.value) && signer.Spent(committee.genesis + proposal.version)
        && Log() == old(Log()) +
             [SlotProtocol.Signed(committee.genesis + proposal.version,
                MessageOf(crypto, committee, WotsXmss, proposal.list, proposal.version))]
      ensures r.Err? ==> Log() == old(Log())
      ensures r.Err? && r.error != SignerRefused(SlotCounter.SigningFailed) ==>
        signer.counter.State() == old(signer.counter.State())
      ensures r == Err(RecordUnreadable) <==> current.Some? && Decoded(form, current.value).None?
      ensures r == Err(VersionsExhausted) <==>
        current.Some? && Decoded(form, current.value).Some? && Decoded(form, current.value).value.Version() == U32_MAX
      ensures r == Err(NoSlot) <==>
        NextVersion(form, current) == Ok(proposal.version) && committee.genesis + proposal.version > U32_MAX
      ensures r.Err? && r.error.NotNext? <==>
        NextVersion(form, current).Ok? && NextVersion(form, current).value != proposal.version
    {
      hide Decoded, Message;
      var expected := NextVersion(form, current);
      if expected.Err? {
        return Err(expected.error);
      }
      if proposal.version != expected.value {
        return Err(NotNext(expected.value));
      }
      var slot := SlotFor(committee.genesis, proposal.version);
      if slot.None? {
        return Err(NoSlot);
      }
      var message := MessageOf(crypto, committee, WotsXmss, proposal.list, proposal.version);
      var signed := signer.SignAt(message, slot.value, fate, signature);
      return if signed.Ok? then Ok(signed.value) else Err(SignerRefused(signed.error));
    }

    /**
     Collects signatures until the threshold or the end of the window; `arrivals` is
     what the channel delivers in that time. None when the version has no slot, which
     the code takes for granted.
     */
    method CollectSignatures(proposal: Proposal, arrivals: SignedPairs) returns (quorum: Option<SignedPairs>)
      requires forall p <- arrivals :: p.index < |committee.members|
      ensures var slot := committee.genesis + proposal.version;
        quorum == if slot > U32_MAX then None else
          Some(Counted(crypto, committee, MessageOf(crypto, committee, WotsXmss, proposal.list, proposal.version),
                       slot, arrivals, committee.t))
    {
      hide Message, Counted;
      var message := MessageOf(crypto, committee, WotsXmss, proposal.list, proposal.version);
      var slot := SlotFor(committee.genesis, proposal.version);
      if slot.None? {
        return None;
      }
      var pairs: SignedPairs, next := [], 0;
      assert arrivals[0..] == arrivals;
      while |pairs| < committee.t && next < |arrivals|
        invariant next <= |arrivals| && |pairs| <= committee.t
        invariant pairs + Counted(crypto, committee, message, slot.value, arrivals[next..], committee.t - |pairs|)
               == Counted(crypto, committee, message, slot.value, arrivals, committee.t)
      {
        var p := arrivals[next];
        assert p in arrivals;
        CountedNext(crypto, committee, message, slot.value, arrivals, next, committee.t - |pairs|);
        var checked := VerifyOne(crypto, committee, committee.members[p.index], p.signature, message, slot.value);
        if checked.Ok? {
          pairs := pairs + [p];
        }
        next := next + 1;
      }
      CountedDone(crypto, committee, message, slot.value, arrivals[next..], committee.t - |pairs|);
      assert pairs + [] == pairs;
      return Some(pairs);
    }

    /** The quorum, in the form this node publishes, unless the form refuses it or its prover panics. */
    method BuildRecord(list: seq<Bytes>, version: u32, slot: u32, quorum: SignedPairs) returns (built: Built)
      ensures built == Record(crypto, committee, form, prover, list, version, slot, quorum)
    {
      match form {
        case RawForm =>
          var record := StatusList.New(WotsXmss, list, version, |committee.members|, quorum);
          return if record.Err? then Unbuilt else Encoded(RawToBytes(record.value));
        case SnarkForm =>
          if prover.None? {
            return Unbuilt;
          }
          var proof := prover.value.prove(quorum, MessageOf(crypto, committee, WotsXmss, list, version), slot);
          if proof.None? {
            return Crashed;
          }
          return Encoded(SnarkToBytes(SnarkRecord(WotsXmss, list, version, proof.value)));
      }
    }

    /** The quorum a round on `list` at `version` counts out of `arrivals`. */
    function QuorumFor(list: seq<Bytes>, version: u32, slot: u32, arrivals: SignedPairs): SignedPairs {
      Counted(crypto, committee, MessageOf(crypto, committee, WotsXmss, list, version), slot, arrivals, committee.t)
    }

    /** What a round on `list` builds; nothing without a quorum. */
    function RoundBuilds(list: seq<Bytes>, version: u32, slot: u32, arrivals: SignedPairs): Built {
      var quorum := QuorumFor(list, version, slot, arrivals);
      if |quorum| < committee.t then Unbuilt
      else Record(crypto, committee, form, prover, list, version, slot, quorum)
    }

    /** A round on this request panics: it clashes, its version has no slot, or its prover crashes. */
    predicate RoundPanics(current: Option<Bytes>, request: Request, arrivals: SignedPairs) {
      var version, edit := NextVersion(form, current), Edited(ListOf(form, current), request);
      version.Ok? && (edit.Clash? || (edit.Changed? &&
        var slot := SlotFor(committee.genesis, version.value);
        slot.None? || RoundBuilds(edit.list, version.value, slot.value, arrivals).Crashed?))
    }

    /** After a record at the last slot, every issuance, and every revocation of a listed credential, panics. */
    lemma PanicsAfterLastSlot(bytes: Bytes, version: u32, request: Request, arrivals: SignedPairs)
      requires Verdict(crypto, committee, form, bytes) == Some(version)
      requires committee.genesis + version == U32_MAX && version < U32_MAX
      requires request.Issue? || (request.Revoke? && request.entry in Decoded(form, bytes).value.List())
      ensures RoundPanics(Some(bytes), request, arrivals)
    {
      hide Decoded;
      NoSlotExactly(crypto, committee, form, bytes, version);
    }

    /** A round on this request has bytes to publish. */
    predicate RoundPublishes(current: Option<Bytes>, request: Request, arrivals: SignedPairs) {
      var version, edit := NextVersion(form, current), Edited(ListOf(form, current), request);
      version.Ok? && edit.Changed? && SlotFor(committee.genesis, version.value).Some?
      && RoundBuilds(edit.list, version.value, SlotFor(committee.genesis, version.value).value, arrivals).Built?
    }

    /** The foreign prover does not return from the quorum that a round on `list` counts. */
    predicate ProverCrashes(list: seq<Bytes>, version: u32, slot: u32, arrivals: SignedPairs) {
      var quorum := QuorumFor(list, version, slot, arrivals);
      && form.SnarkForm? && prover.Some? && |quorum| >= committee.t
      && prover.value.prove(quorum, MessageOf(crypto, committee, WotsXmss, list, version), slot).None?
    }

    ghost predicate Readable(current: Option<Bytes>) {
      current.Some? ==> Decoded(form, current.value).Some?
    }

    /** A readable cell holds `list`, and `next` comes after the version it holds. */
    ghost predicate Stands(current: Option<Bytes>, list: seq<Bytes>, next: nat) {
      match current
      case None => list == [] && next == 0
      case Some(bytes) =>
        var read := Decoded(form, bytes);
        read.Some? ==> list == read.value.List() && next == read.value.Version() + 1
    }

    /**
     When a round panics, in terms of the list and the version read: on a fresh
     credential that is already listed; or the request leaves some list, whose version
     has no 32-bit slot or whose prover crashes on the quorum counted. And when it has
     bytes to publish: the list the request leaves is built at slot genesis + next.
     */
    lemma RoundExactly(current: Option<Bytes>, request: Request, arrivals: SignedPairs, list: seq<Bytes>,
                             next: nat)
      requires Stands(current, list, next)
      ensures RoundPanics(current, request, arrivals) <==>
        && next <= U32_MAX && Readable(current)
        && ((request.Issue? && request.entry in list)
            || exists after :: Applies(request, list, after) &&
                 (committee.genesis + next > U32_MAX
                  || ProverCrashes(after, next, committee.genesis + next, arrivals)))
      ensures RoundPublishes(current, request, arrivals) <==>
        && next <= U32_MAX && Readable(current) && committee.genesis + next <= U32_MAX
        && exists after :: Applies(request, list, after) &&
             RoundBuilds(after, next, committee.genesis + next, arrivals).Built?
    {
      hide Decoded, Applies, Edited, Counted, MessageOf, Constructed, RawToBytes, SnarkToBytes;
      if next <= U32_MAX {
        NextVersionExactly(form, current, next);
      }
      EditedExactly(list, request, list);
      var edit := Edited(list, request);
      if edit.Changed? {
        EditedExactly(list, request, edit.list);
      }
      forall after | Applies(request, list, after)
        ensures edit == Changed(after)
      {
        EditedExactly(list, request, after);
      }
    }

    /**
     One round, from the request to the published record. Whatever is published
     authenticates, to every relying party of this anchor, exactly the requested
     change of the record read, at the version after it. A request that is decoded
     panics exactly when the round does or an earlier round did: the lock it needs is
     poisoned by the first panic.
     */
    method OnStatusRequest(current: Option<Bytes>, request: Request, arrivals: SignedPairs, publishOk: bool)
      returns (o: Outcome)
      requires Coherent(crypto.hashes.sha3, committee) && EntrySized(request)
      requires form.SnarkForm? ==> IdealProver(crypto, committee, prover)
      requires Distinct(Indices(arrivals))
      requires forall p <- arrivals :: p.index < |committee.members| && |p.signature| == SIGNATURE_BYTES
      modifies this`poisoned
      ensures o.Panicked? <==>
        canAggregate && !request.Undecodable? && (old(poisoned) || RoundPanics(current, request, arrivals))
      ensures poisoned == (old(poisoned) || o.Panicked?)
      ensures o.PublishedAs? <==>
        && canAggregate && !request.Undecodable? && !old(poisoned) && publishOk
        && RoundPublishes(current, request, arrivals)
      ensures o.PublishedAs? ==>
        var version, edit := NextVersion(form, current), Edited(ListOf(form, current), request);
        && o.bytes ==
             RoundBuilds(edit.list, version.value, SlotFor(committee.genesis, version.value).value, arrivals).bytes
        && Verdict(crypto, committee, form, o.bytes) == Some(version.value)
        && Decoded(form, o.bytes).value.List() == edit.list
      ensures o.PublishedAs? ==>
        var published := Decoded(form, o.bytes).value;
        && Verdict(crypto, committee, form, o.bytes) == Some(published.Version())
        && (current.None? ==>
              published.Version() == 0 && request.Issue? && published.List() == [request.entry])
        && (current.Some? ==>
              var read := Decoded(form, current.value);
              && read.Some? && published.Version() == read.value.Version() + 1
              && Applies(request, read.value.List(), published.List()))
    {
      hide Decoded, Coherent, IdealProver, Message, Counted, Record, Verdict, Retains;
      if !canAggregate || request.Undecodable? {
        return Failed;
      }
      if poisoned {
        return Panicked;
      }
      var version := NextVersion(form, current);
      if version.Err? {
        return Failed;
      }
      var edit := Edited(ListOf(form, current), request);
      match edit {
        case Clash =>
          poisoned := true;
          return Panicked;
        case Rejected => return Failed;
        case Changed(list) =>
          var quorum := CollectSignatures(Proposal(version.value, list), arrivals);
          if quorum.None? {
            poisoned := true;
            return Panicked;
          }
          if |quorum.value| < committee.t {
            return Failed;
          }
          var slot := SlotFor(committee.genesis, version.value).value;
          var built := BuildRecord(list, version.value, slot, quorum.value);
          if built.Crashed? {
            poisoned := true;
            return Panicked;
          }
          if built.Unbuilt? || !publishOk {
            return Failed;
          }
          EditedListIsSized(form, current, request);
          QuorumRecordVerifies(crypto, committee, form, prover, list, version.value, arrivals);
          VerdictIsVersion(crypto, committee, form, built.bytes);
          NextVersionExactly(form, current, version.value);
          EditedExactly(ListOf(form, current), request, list);
          return PublishedAs(built.bytes);
      }
    }
  }

  // ------------------------------------------------------------- the last slot's round

  /**
   Once a record is authentic, its successor lacks a slot exactly when the record sits
   at the last 32-bit slot and its version is not the last version.
   */
  lemma NoSlotExactly(x: Crypto, c: Committee, form: Form, bytes: Bytes, version: u32)
    requires Verdict(x, c, form, bytes) == Some(version)
    ensures var next := NextVersion(form, Some(bytes));
      next.Ok? && c.genesis + next.value > U32_MAX <==> c.genesis + version == U32_MAX && version < U32_MAX
  {
    hide Decoded, VerifyRaw, VerifySnark, ProofOf;
    VerifiedHasSlot(x, c, Decoded(form, bytes).value);
  }

  lemma VerdictIsVersion(x: Crypto, c: Committee, form: Form, bytes: Bytes)
    requires Verdict(x, c, form, bytes).Some?
    ensures Decoded(form, bytes).Some? && Verdict(x, c, form, bytes) == Some(Decoded(form, bytes).value.Version())
  {
  }

  lemma VerifiedHasSlot(x: Crypto, c: Committee, p: Published)
    requires Accepts(x, c, p)
    ensures c.genesis + p.Version() <= U32_MAX
  {
  }

  function ZeroDigest(b: Bytes): Bytes {
    Zeros(32)
  }

  /**
   The panic is reached: a committee whose first round has the last slot publishes a
   record that every relying party accepts, and the next issuance or revocation panics.
   */
  lemma LastSlotReachable() returns (x: Crypto, c: Committee, bytes: Bytes)
    ensures Coherent(x.hashes.sha3, c) && Verdict(x, c, RawForm, bytes) == Some(0)
    ensures c.genesis + 1 > U32_MAX
    ensures Decoded(RawForm, bytes).value.List() == []
  {
    hide Message, Constructed, VerifyRaw, RawFromBytes, RawToBytes, WireBytes;
    assert HasDigests(ZeroDigest, 32);
    x := Crypto(Hashes(ZeroDigest, ZeroDigest), (k, m, s, n) => true, b => None, a => [], a => false);
    var members := [Zeros(KEY_BYTES)];
    c := Anchor.Committee(members, 1, U32_MAX, Digest(ZeroDigest, WireBytes(members, 1, U32_MAX)));
    var quorum := [Pair(0, Zeros(SIGNATURE_BYTES))];
    assert Indices(quorum) == [0];
    GoodQuorumVerifies(x, c, [], 0, quorum);
    ConstructedFrom(WotsXmss, [], 0, 1, quorum);
    var r := Constructed(WotsXmss, [], 0, 1, quorum).value;
    RawEncodesExactly(r);
    bytes := RawToBytes(r).value;
    RawDecodeOfEncode(r);
  }
}
