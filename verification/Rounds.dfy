/**
 The committee's publication rounds over one record cell: aggregators propose any
 version, members check the published record and sign in two separate steps, replies
 arrive or are lost, a quorum is published. Each member signs through its own slot
 state, the step system of SlotProtocol; records and messages are the real bytes.
 */
module Rounds {
  import opened Prelude
  import opened ByteStrings
  import opened Anchor
  import opened Statement
  import opened Signers
  import opened StatusList
  import opened Verifiers
  import opened Nodes
  import opened CommitteeNode
  import opened SlotProtocol
  import opened SlotSafety
  import opened Quorums
  import Ssz

  /** The anchor, the published form, and the slot environment of each member. */
  datatype Setup = Setup(crypto: Crypto, committee: Committee, form: Form, prover: Option<Prover>, envs: seq<Env>) {
    /** A coherent anchor of these members, whose quorums are majorities. */
    ghost predicate Proper() {
      && Coherent(crypto.hashes.sha3, committee) && |envs| == |committee.members| && 2 * committee.t > |envs|
      && (form.SnarkForm? ==> IdealProver(crypto, committee, prover))
    }
  }

  /** One round of one aggregator: what it proposes, and the replies that reached it. */
  datatype Round = Round(version: u32, list: seq<Bytes>, arrivals: SignedPairs, published: bool)

  /**
   `checked` holds the (member, round) pairs whose version check has passed, `answered`
   those for which the member signed. `cell` is every value the record cell ever held,
   the last one current, and `history` the rounds that published them.
   */
  datatype Net = Net(
    members: seq<World<Bytes>>,
    rounds: seq<Round>,
    checked: set<(nat, nat)>,
    answered: set<(nat, nat)>,
    history: seq<nat>,
    cell: seq<Bytes>)

  datatype Step =
    | StartRound(version: u32, list: seq<Bytes>)
    | Check(member: nat, round: nat, read: Option<nat>)
    | SlotStep(member: nat, event: Event<Bytes>)
    | SignFor(member: nat, round: nat, process: nat)
    | Arrive(round: nat, pair: Pair<Bytes>)
    | Publish(round: nat)

  /** What a read of the cell may give: any value it ever held, or nothing. */
  function Read(net: Net, read: Option<nat>): Option<Bytes> {
    if read.Some? && read.value < |net.cell| then Some(net.cell[read.value]) else None
  }

  function MessageFor(s: Setup, r: Round): Bytes {
    MessageOf(s.crypto, s.committee, WotsXmss, r.list, r.version)
  }

  function SlotOf(s: Setup, r: Round): Option<u32> {
    SlotFor(s.committee.genesis, r.version)
  }

  /** The signatures the aggregator of a round has counted. */
  function QuorumOf(s: Setup, r: Round): SignedPairs {
    if SlotOf(s, r).None? then [] else
    Counted(s.crypto, s.committee, MessageFor(s, r), SlotOf(s, r).value, r.arrivals, s.committee.t)
  }

  function RecordOf(s: Setup, r: Round): Built {
    if SlotOf(s, r).None? then Unbuilt else
    Record(s.crypto, s.committee, s.form, s.prover, r.list, r.version, SlotOf(s, r).value, QuorumOf(s, r))
  }

  predicate Verifies(s: Setup, r: Round, pair: Pair<Bytes>) {
    SlotOf(s, r).Some? && Signs(s.crypto, s.committee, MessageFor(s, r), SlotOf(s, r).value, pair)
  }

  predicate SignsNothing(e: Event<Bytes>) {
    e.Sign? ==> !e.ok
  }

  ghost predicate CanStep(s: Setup, net: Net, step: Step)
    requires |s.envs| == |net.members|
  {
    match step
    case StartRound(_, list) => Ssz.AllOfSize(list, ENTRY_BYTES)
    case Check(i, r, read) =>
      i < |net.members| && r < |net.rounds|
      && Policy(s.committee, s.form, Read(net, read), net.rounds[r].version).Ok?
    case SlotStep(i, e) =>
      i < |net.members| && SignsNothing(e)
      && Enabled(s.envs[i], net.members[i], e) && Contract(s.envs[i], net.members[i], e)
    case SignFor(i, r, p) =>
      i < |net.members| && r < |net.rounds| && (i, r) in net.checked
      && p in net.members[i].procs && net.members[i].procs[p].Reserved?
      && SlotOf(s, net.rounds[r]) == Some(net.members[i].procs[p].slot)
    case Arrive(r, pair) =>
      // one reply a member and round; one that verifies is the member's own answer
      r < |net.rounds| && !net.rounds[r].published && pair.index < |net.members|
      && |pair.signature| == SIGNATURE_BYTES && pair.index !in Indices(net.rounds[r].arrivals)
      && (Verifies(s, net.rounds[r], pair) ==> (pair.index, r) in net.answered)
    case Publish(r) =>
      r < |net.rounds| && !net.rounds[r].published && |QuorumOf(s, net.rounds[r])| >= s.committee.t
      && RecordOf(s, net.rounds[r]).Built?
  }

  ghost function Do(s: Setup, net: Net, step: Step): Net
    requires |s.envs| == |net.members| && CanStep(s, net, step)
  {
    match step
    case StartRound(version, list) => net.(rounds := net.rounds + [Round(version, list, [], false)])
    case Check(i, r, _) => net.(checked := net.checked + {(i, r)})
    case SlotStep(i, e) => net.(members := net.members[i := Apply(s.envs[i], net.members[i], e)])
    case SignFor(i, r, p) =>
      var sign := Event.Sign(p, MessageFor(s, net.rounds[r]), true);
      net.(members := net.members[i := Apply(s.envs[i], net.members[i], sign)], answered := net.answered + {(i, r)})
    case Arrive(r, pair) =>
      net.(rounds := net.rounds[r := net.rounds[r].(arrivals := net.rounds[r].arrivals + [pair])])
    case Publish(r) =>
      net.(rounds := net.rounds[r := net.rounds[r].(published := true)], history := net.history + [r],
           cell := net.cell + [RecordOf(s, net.rounds[r]).bytes])
  }

  ghost predicate Start(s: Setup, net: Net) {
    && s.Proper() && |s.envs| == |net.members|
    && (forall i | 0 <= i < |s.envs| :: Init(s.envs[i], net.members[i]))
    && net.rounds == [] && net.checked == {} && net.answered == {} && net.history == [] && net.cell == []
  }

  // --------------------------------------------------------------------- invariant

  /** What every step keeps. */
  ghost predicate Orderly(s: Setup, net: Net) {
    && s.Proper() && |s.envs| == |net.members| && |net.cell| == |net.history|
    && (forall i | 0 <= i < |s.envs| :: Inv(s.envs[i], net.members[i]))
    && LedgerOk(s, net)
    && (forall r | 0 <= r < |net.rounds| :: RoundOk(s, net, r))
    && (forall k | 0 <= k < |net.history| :: PublishedOk(s, net, k))
  }

  /** Checks and answers: no member answers two rounds of one version. */
  ghost predicate LedgerOk(s: Setup, net: Net) {
    && (forall i, r | (i, r) in net.checked :: CheckedOk(net, r))
    && (forall i, r | (i, r) in net.answered :: AnsweredOk(s, net, i, r))
    && (forall i, r, q | (i, r) in net.answered && (i, q) in net.answered :: OneAnswer(net, r, q))
  }

  /** A member checks only a version that follows a published one, or the first. */
  predicate CheckedOk(net: Net, r: nat) {
    r < |net.rounds| && net.rounds[r].version <= |net.history|
  }

  /** An answer was checked first, and the member has spent the round's slot on the round's message. */
  predicate AnsweredOk(s: Setup, net: Net, i: nat, r: nat) {
    && i < |net.members| && r < |net.rounds| && (i, r) in net.checked
    && SlotOf(s, net.rounds[r]).Some? && SlotOf(s, net.rounds[r]).value in SlotsOf(net.members[i].signed)
    && Signed(SlotOf(s, net.rounds[r]).value, MessageFor(s, net.rounds[r])) in net.members[i].signed
  }

  predicate OneAnswer(net: Net, r: nat, q: nat) {
    r < |net.rounds| && q < |net.rounds| && net.rounds[r].version == net.rounds[q].version ==> r == q
  }

  predicate RoundOk(s: Setup, net: Net, r: nat)
    requires r < |net.rounds|
  {
    var round := net.rounds[r];
    && Ssz.AllOfSize(round.list, ENTRY_BYTES) && Distinct(Indices(round.arrivals))
    && (forall p <- round.arrivals :: ArrivalOk(s, net, r, p))
    && (round.published ==> r in net.history)
  }

  predicate ArrivalOk(s: Setup, net: Net, r: nat, p: Pair<Bytes>)
    requires r < |net.rounds|
  {
    p.index < |net.members| && |p.signature| == SIGNATURE_BYTES
    && (Verifies(s, net.rounds[r], p) ==> (p.index, r) in net.answered)
  }

  /** The k-th published record stands on a quorum, and authenticates version k and its round's list. */
  predicate PublishedOk(s: Setup, net: Net, k: nat)
    requires k < |net.history| == |net.cell|
  {
    var r := net.history[k];
    && r < |net.rounds| && net.rounds[r].published && net.rounds[r].version == k
    && |QuorumOf(s, net.rounds[r])| >= s.committee.t && Authentic(s, net.cell[k], k)
    && Holds(s, net.cell[k], net.rounds[r].list)
  }

  /** Every relying party of the anchor verifies these bytes, as version k. */
  predicate Authentic(s: Setup, bytes: Bytes, k: nat) {
    k <= U32_MAX && Verdict(s.crypto, s.committee, s.form, bytes) == Some(k)
  }

  /** These bytes decode to a record of this list. */
  predicate Holds(s: Setup, bytes: Bytes, list: seq<Bytes>) {
    var record := Decoded(s.form, bytes);
    record.Some? && record.value.List() == list
  }

  // ------------------------------------------------------------ quorum intersection

  /** The members behind the signatures a round has counted. */
  lemma QuorumMembers(s: Setup, net: Net, r: nat) returns (q: set<nat>)
    requires r < |net.rounds| && RoundOk(s, net, r)
    ensures |q| == |QuorumOf(s, net.rounds[r])|
    ensures forall i <- q :: i < |net.members| && (i, r) in net.answered
  {
    hide Signs, MessageFor;
    var round := net.rounds[r];
    var quorum := QuorumOf(s, round);
    q := set i | i in Indices(quorum);
    if SlotOf(s, round).Some? {
      CountedAreGood(s.crypto, s.committee, MessageFor(s, round), SlotOf(s, round).value,
                     round.arrivals, s.committee.t);
      SetOfDistinct(Indices(quorum));
      forall i | i in q
        ensures i < |net.members| && (i, r) in net.answered
      {
        var j :| 0 <= j < |quorum| && Indices(quorum)[j] == i;
        assert quorum[j] in quorum && quorum[j] in round.arrivals;
        assert ArrivalOk(s, net, r, quorum[j]) && Verifies(s, round, quorum[j]);
      }
    } else {
      assert q == {};
    }
  }

  /** No two rounds of one version both gather a quorum. */
  lemma OneQuorumPerVersion(s: Setup, net: Net, r: nat, q: nat)
    requires Orderly(s, net) && r < |net.rounds| && q < |net.rounds|
    requires net.rounds[r].version == net.rounds[q].version
    requires |QuorumOf(s, net.rounds[r])| >= s.committee.t && |QuorumOf(s, net.rounds[q])| >= s.committee.t
    ensures r == q
  {
    hide Inv, QuorumOf, RoundOk, PublishedOk, Coherent;
    assert RoundOk(s, net, r) && RoundOk(s, net, q);
    var a := QuorumMembers(s, net, r);
    var b := QuorumMembers(s, net, q);
    var i := QuorumsMeet(|s.envs|, s.committee.t, a, b);
    assert OneAnswer(net, r, q);
  }

  // ------------------------------------------------------------------- preservation

  lemma StepKeepsOrder(s: Setup, net: Net, step: Step)
    requires Orderly(s, net) && CanStep(s, net, step)
    ensures Orderly(s, Do(s, net, step))
  {
    hide Orderly, Do, CanStep;
    match step
    case StartRound(_, _) => StartKeepsOrder(s, net, step);
    case Check(_, _, _) => CheckKeepsOrder(s, net, step);
    case SlotStep(_, _) => SlotKeepsOrder(s, net, step);
    case SignFor(_, _, _) => SignKeepsOrder(s, net, step);
    case Arrive(_, _) => ArriveKeepsOrder(s, net, step);
    case Publish(_) => PublishKeepsOrder(s, net, step);
  }

  lemma StartKeepsOrder(s: Setup, net: Net, step: Step)
    requires Orderly(s, net) && CanStep(s, net, step) && step.StartRound?
    ensures Orderly(s, Do(s, net, step))
  {
    hide LedgerOk, Inv, QuorumOf, Authentic, Verifies, Coherent, SlotOf;
    var net' := Do(s, net, step);
    assert forall r | 0 <= r < |net.rounds| :: net'.rounds[r] == net.rounds[r];
    forall r | 0 <= r < |net'.rounds|
      ensures RoundOk(s, net', r)
    {
      if r < |net.rounds| {
        assert RoundOk(s, net, r);
        ArrivalsStayOk(s, net, net', r);
      }
    }
    forall k | 0 <= k < |net'.history|
      ensures PublishedOk(s, net', k)
    {
      assert PublishedOk(s, net, k);
    }
    LedgerKept(s, net, net');
  }

  /** Arrivals stay good while their round is the same and answers only grow. */
  lemma ArrivalsStayOk(s: Setup, net: Net, net': Net, r: nat)
    requires r < |net.rounds| && r < |net'.rounds| && RoundOk(s, net, r)
    requires |net'.members| == |net.members| && net.answered <= net'.answered
    requires net'.rounds[r].version == net.rounds[r].version && net'.rounds[r].list == net.rounds[r].list
    ensures forall p <- net.rounds[r].arrivals :: ArrivalOk(s, net', r, p)
  {
    hide Signs, MessageOf;
    forall p | p in net.rounds[r].arrivals
      ensures ArrivalOk(s, net', r, p)
    {
      assert ArrivalOk(s, net, r, p);
    }
  }

  /** The ledger survives whatever leaves it, the versions and the spent slots alone. */
  lemma LedgerKept(s: Setup, net: Net, net': Net)
    requires LedgerOk(s, net) && net'.checked == net.checked && net'.answered == net.answered
    requires |net'.rounds| >= |net.rounds| && |net'.history| >= |net.history| && |net'.members| == |net.members|
    requires forall r | 0 <= r < |net.rounds| ::
      net'.rounds[r].version == net.rounds[r].version && net'.rounds[r].list == net.rounds[r].list
    requires forall i | 0 <= i < |net.members| :: net'.members[i].signed == net.members[i].signed
    ensures LedgerOk(s, net')
  {
    forall i, r | (i, r) in net'.checked
      ensures CheckedOk(net', r)
    {
      assert CheckedOk(net, r);
    }
    forall i, r | (i, r) in net'.answered
      ensures AnsweredOk(s, net', i, r)
    {
      assert AnsweredOk(s, net, i, r);
    }
    forall i, r, q | (i, r) in net'.answered && (i, q) in net'.answered
      ensures OneAnswer(net', r, q)
    {
      assert OneAnswer(net, r, q) && AnsweredOk(s, net, i, r) && AnsweredOk(s, net, i, q);
    }
  }

  lemma CheckKeepsOrder(s: Setup, net: Net, step: Step)
    requires Orderly(s, net) && CanStep(s, net, step) && step.Check?
    ensures Orderly(s, Do(s, net, step))
  {
    hide Inv, QuorumOf, Verifies, Coherent, SlotOf;
    var net' := Do(s, net, step);
    CheckedFollows(s, net, step.read, net.rounds[step.round].version);
    hide Authentic, Policy;
    forall r | 0 <= r < |net'.rounds|
      ensures RoundOk(s, net', r)
    {
      assert RoundOk(s, net, r);
      ArrivalsStayOk(s, net, net', r);
    }
    forall k | 0 <= k < |net'.history|
      ensures PublishedOk(s, net', k)
    {
      assert PublishedOk(s, net, k);
    }
    forall i, r | (i, r) in net'.checked
      ensures CheckedOk(net', r)
    {
      assert (i, r) in net.checked ==> CheckedOk(net, r);
    }
    forall i, r | (i, r) in net'.answered
      ensures AnsweredOk(s, net', i, r)
    {
      assert AnsweredOk(s, net, i, r);
    }
    forall i, r, q | (i, r) in net'.answered && (i, q) in net'.answered
      ensures OneAnswer(net', r, q)
    {
      assert OneAnswer(net, r, q);
    }
  }

  /**
   The member's version check, against any value the cell ever held: the k-th published
   value admits version k + 1 alone, an empty read version 0 alone, each if it has a slot.
   */
  lemma CheckedFollows(s: Setup, net: Net, read: Option<nat>, version: u32)
    requires Orderly(s, net)
    ensures Policy(s.committee, s.form, Read(net, read), version).Ok? <==>
      && version == (if read.Some? && read.value < |net.cell| then read.value + 1 else 0)
      && s.committee.genesis + version <= U32_MAX
  {
    hide Inv, QuorumOf, RoundOk, AnsweredOk, CheckedOk, OneAnswer, Coherent, Decoded, Policy;
    if s.committee.genesis + version <= U32_MAX {
      PolicyExactly(s.committee, s.form, Read(net, read), version, s.committee.genesis + version);
    }
    if Policy(s.committee, s.form, Read(net, read), version).Ok? {
      var slot := Policy(s.committee, s.form, Read(net, read), version).value;
      PolicyExactly(s.committee, s.form, Read(net, read), version, slot);
    }
    if Read(net, read).Some? {
      assert PublishedOk(s, net, read.value);
    }
  }

  lemma SlotKeepsOrder(s: Setup, net: Net, step: Step)
    requires Orderly(s, net) && CanStep(s, net, step) && step.SlotStep?
    ensures Orderly(s, Do(s, net, step))
  {
    var net', m := Do(s, net, step), step.member;
    StepKeepsInv(s.envs[m], net.members[m], step.event);
    SignedGrows(s.envs[m], net.members[m], step.event);
    hide Inv, Apply, Enabled, Contract, QuorumOf, Authentic, Verifies, Coherent, SlotOf;
    MembersOnly(s, net, net', m);
  }

  /** A slot step only appends to the signatures, and only by signing. */
  lemma SignedGrows(env: Env, w: World<Bytes>, e: Event<Bytes>)
    requires Enabled(env, w, e)
    ensures Apply(env, w, e).signed
         == w.signed + if e.Sign? && e.ok then [Signed(w.procs[e.p].slot, e.message)] else []
  {
  }

  /** A member moved on without signing: nothing the rounds rest on has changed. */
  lemma MembersOnly(s: Setup, net: Net, net': Net, m: nat)
    requires Orderly(s, net) && m < |net.members| == |net'.members|
    requires net' == net.(members := net.members[m := net'.members[m]])
    requires Inv(s.envs[m], net'.members[m]) && net'.members[m].signed == net.members[m].signed
    ensures Orderly(s, net')
  {
    hide LedgerOk, Inv, QuorumOf, Authentic, Verifies, Coherent, SlotOf;
    forall r | 0 <= r < |net'.rounds|
      ensures RoundOk(s, net', r)
    {
      assert RoundOk(s, net, r);
      ArrivalsStayOk(s, net, net', r);
    }
    forall k | 0 <= k < |net'.history|
      ensures PublishedOk(s, net', k)
    {
      assert PublishedOk(s, net, k);
    }
    LedgerKept(s, net, net');
  }

  lemma SignKeepsOrder(s: Setup, net: Net, step: Step)
    requires Orderly(s, net) && CanStep(s, net, step) && step.SignFor?
    ensures Orderly(s, Do(s, net, step))
  {
    hide Inv, Apply, LedgerOk, QuorumOf, Authentic, Verifies, Coherent, MessageFor, SlotsOf, SlotOf;
    var net', m := Do(s, net, step), step.member;
    var slot := net.members[m].procs[step.process].slot;
    SignEffects(s.envs[m], net.members[m], step.process, MessageFor(s, net.rounds[step.round]));
    SignKeepsLedger(s, net, net', m, step.round, slot);
    forall r | 0 <= r < |net'.rounds|
      ensures RoundOk(s, net', r)
    {
      assert RoundOk(s, net, r);
      ArrivalsStayOk(s, net, net', r);
    }
    forall k | 0 <= k < |net'.history|
      ensures PublishedOk(s, net', k)
    {
      assert PublishedOk(s, net, k);
    }
  }

  /** Signing keeps the invariant and spends a slot that was not yet signed at. */
  lemma SignEffects(env: Env, w: World<Bytes>, p: nat, message: Bytes)
    requires Inv(env, w) && p in w.procs && w.procs[p].Reserved?
    ensures var sign, slot := Event.Sign(p, message, true), w.procs[p].slot;
      && Enabled(env, w, sign) && Inv(env, Apply(env, w, sign)) && slot !in SlotsOf(w.signed)
      && Apply(env, w, sign).signed == w.signed + [Signed(slot, message)]
      && forall n :: n in SlotsOf(Apply(env, w, sign).signed) <==> n in SlotsOf(w.signed) || n == slot
  {
    var sign := Event.Sign(p, message, true);
    StepKeepsInv(env, w, sign);
    SignedGrows(env, w, sign);
    SlotNotYetSigned(env, w, p);
    SpentGrows(w.signed, Apply(env, w, sign).signed, w.procs[p].slot);
  }

  lemma SignKeepsLedger(s: Setup, net: Net, net': Net, m: nat, round: nat, slot: u32)
    requires LedgerOk(s, net) && m < |net.members| == |net'.members|
    requires round < |net.rounds| && (m, round) in net.checked
    requires net' == net.(members := net.members[m := net'.members[m]], answered := net.answered + {(m, round)})
    requires SlotOf(s, net.rounds[round]) == Some(slot) && slot !in SlotsOf(net.members[m].signed)
    requires net'.members[m].signed == net.members[m].signed + [Signed(slot, MessageFor(s, net.rounds[round]))]
    requires forall n :: n in SlotsOf(net'.members[m].signed) <==> n in SlotsOf(net.members[m].signed) || n == slot
    ensures LedgerOk(s, net')
  {
    hide SlotsOf;
    forall i, r | (i, r) in net'.checked
      ensures CheckedOk(net', r)
    {
      assert CheckedOk(net, r);
    }
    forall i, r | (i, r) in net'.answered
      ensures AnsweredOk(s, net', i, r)
    {
      assert (i, r) in net.answered ==> AnsweredOk(s, net, i, r);
      assert CheckedOk(net, round);
    }
    forall i, r, q | (i, r) in net'.answered && (i, q) in net'.answered
      ensures OneAnswer(net', r, q)
    {
      assert (i, r) in net.answered ==> AnsweredOk(s, net, i, r);
      assert (i, q) in net.answered ==> AnsweredOk(s, net, i, q);
      assert (i, r) in net.answered && (i, q) in net.answered ==> OneAnswer(net, r, q);
    }
  }

  /** The slot a process is about to sign at has not been signed at before. */
  lemma SlotNotYetSigned(env: Env, w: World<Bytes>, p: nat)
    requires Inv(env, w) && p in w.procs && w.procs[p].Reserved?
    ensures w.procs[p].slot !in SlotsOf(w.signed)
  {
    assert PhaseOk(env, w, w.procs[p]);
  }

  lemma SpentGrows(signed: seq<Signed<Bytes>>, more: seq<Signed<Bytes>>, slot: u32)
    requires |more| == |signed| + 1 && more[..|signed|] == signed && more[|signed|].slot == slot
    ensures forall n :: n in SlotsOf(more) <==> n in SlotsOf(signed) || n == slot
  {
    assert SlotsOf(more) == SlotsOf(signed) + [slot];
  }

  lemma ArriveKeepsOrder(s: Setup, net: Net, step: Step)
    requires Orderly(s, net) && CanStep(s, net, step) && step.Arrive?
    ensures Orderly(s, Do(s, net, step))
  {
    hide LedgerOk, Inv, QuorumOf, Authentic, Coherent;
    var net', a, pair := Do(s, net, step), step.round, step.pair;
    forall r | 0 <= r < |net'.rounds|
      ensures RoundOk(s, net', r)
    {
      assert RoundOk(s, net, r);
      ArrivalsStayOk(s, net, net', r);
      if r == a {
        IndicesAppend(net.rounds[a].arrivals, pair);
      }
    }
    forall k | 0 <= k < |net'.history|
      ensures PublishedOk(s, net', k)
    {
      assert PublishedOk(s, net, k);
    }
    LedgerKept(s, net, net');
  }

  lemma IndicesAppend(pairs: SignedPairs, pair: Pair<Bytes>)
    requires Distinct(Indices(pairs)) && pair.index !in Indices(pairs)
    ensures Distinct(Indices(pairs + [pair]))
  {
    assert Indices(pairs + [pair]) == Indices(pairs) + [pair.index];
  }

  /** The heart of it: whatever reaches a quorum next is the next version. */
  lemma NextInOrder(s: Setup, net: Net, r: nat)
    requires Orderly(s, net) && r < |net.rounds| && !net.rounds[r].published
    requires |QuorumOf(s, net.rounds[r])| >= s.committee.t
    ensures net.rounds[r].version == |net.history|
  {
    hide Inv, QuorumOf, Authentic, Verifies, RoundOk, PublishedOk;
    assert RoundOk(s, net, r);
    var q := QuorumMembers(s, net, r);
    assert q != {};
    var i :| i in q;
    assert AnsweredOk(s, net, i, r) && CheckedOk(net, r);
    if net.rounds[r].version < |net.history| {
      NotAgain(s, net, r);
    }
  }

  lemma NotAgain(s: Setup, net: Net, r: nat)
    requires Orderly(s, net) && r < |net.rounds| && |QuorumOf(s, net.rounds[r])| >= s.committee.t
    requires net.rounds[r].version < |net.history|
    ensures net.rounds[r].published
  {
    hide Inv, QuorumOf, Authentic, RoundOk, Coherent;
    var k := net.rounds[r].version;
    assert PublishedOk(s, net, k);
    OneQuorumPerVersion(s, net, r, net.history[k]);
  }

  lemma PublishKeepsOrder(s: Setup, net: Net, step: Step)
    requires Orderly(s, net) && CanStep(s, net, step) && step.Publish?
    ensures Orderly(s, Do(s, net, step))
  {
    hide Inv, QuorumOf, Verifies, Coherent, RecordOf, LedgerOk;
    var net', mine := Do(s, net, step), step.round;
    NextInOrder(s, net, mine);
    PublishedAuthentic(s, net, mine);
    hide Authentic;
    forall r | 0 <= r < |net'.rounds|
      ensures RoundOk(s, net', r)
    {
      assert RoundOk(s, net, r);
      ArrivalsStayOk(s, net, net', r);
      assert net'.history[|net.history|] == mine;
      assert r in net.history ==> r in net'.history;
    }
    forall k | 0 <= k < |net'.history|
      ensures PublishedOk(s, net', k)
    {
      if k < |net.history| {
        assert PublishedOk(s, net, k);
        SameQuorum(s, net.rounds[net.history[k]], net'.rounds[net.history[k]]);
      } else {
        SameQuorum(s, net.rounds[mine], net'.rounds[mine]);
      }
    }
    LedgerKept(s, net, net');
  }

  lemma SameQuorum(s: Setup, a: Round, b: Round)
    requires b == a || b == a.(published := true)
    ensures QuorumOf(s, a) == QuorumOf(s, b)
  {
  }

  /** What a round publishes authenticates the round's version and list to every relying party. */
  lemma PublishedAuthentic(s: Setup, net: Net, r: nat)
    requires Orderly(s, net) && CanStep(s, net, Publish(r))
    ensures Authentic(s, RecordOf(s, net.rounds[r]).bytes, net.rounds[r].version)
    ensures Holds(s, RecordOf(s, net.rounds[r]).bytes, net.rounds[r].list)
  {
    hide Inv, Verdict, Record, Coherent, IdealProver, PublishedOk, AnsweredOk, CheckedOk, Verifies;
    var round := net.rounds[r];
    assert RoundOk(s, net, r);
    forall p | p in round.arrivals
      ensures p.index < |s.committee.members| && |p.signature| == SIGNATURE_BYTES
    {
      assert ArrivalOk(s, net, r, p);
    }
    QuorumRecordVerifies(s.crypto, s.committee, s.form, s.prover, round.list, round.version, round.arrivals);
    VerdictIsVersion(s.crypto, s.committee, s.form, RecordOf(s, round).bytes);
  }

  // --------------------------------------------------------------------- whole runs

  ghost predicate IsRunOfRounds(s: Setup, net: Net, run: seq<Step>)
    requires |s.envs| == |net.members|
    decreases |run|, 0
  {
    run == [] ||
    var k := |run| - 1;
    IsRunOfRounds(s, net, run[..k]) && CanStep(s, End(s, net, run[..k]), run[k])
  }

  ghost function End(s: Setup, net: Net, run: seq<Step>): (net': Net)
    requires |s.envs| == |net.members| && IsRunOfRounds(s, net, run)
    ensures |s.envs| == |net'.members|
    decreases |run|, 1
  {
    if run == [] then net
    else var k := |run| - 1; Do(s, End(s, net, run[..k]), run[k])
  }

  lemma {:induction false} RunKeepsOrder(s: Setup, net: Net, run: seq<Step>)
    requires Start(s, net) && IsRunOfRounds(s, net, run)
    ensures Orderly(s, End(s, net, run))
    decreases |run|
  {
    if run == [] {
      StartIsOrderly(s, net);
    } else {
      hide Start, Orderly, Do, CanStep;
      var k := |run| - 1;
      RunKeepsOrder(s, net, run[..k]);
      StepKeepsOrder(s, End(s, net, run[..k]), run[k]);
    }
  }

  lemma StartIsOrderly(s: Setup, net: Net)
    requires Start(s, net)
    ensures Orderly(s, net)
  {
    forall i | 0 <= i < |s.envs|
      ensures Inv(s.envs[i], net.members[i])
    {
      InitIsInv(s.envs[i], net.members[i]);
    }
  }

  /**
   In every run the cell's values authenticate versions 0, 1, 2, ... under the anchor:
   each version is published at most once, with no gap and no step back, whatever the
   aggregators propose, whatever the members read, and whatever is lost.
   */
  lemma VersionsInOrder(s: Setup, net: Net, run: seq<Step>)
    requires Start(s, net) && IsRunOfRounds(s, net, run)
    ensures var cell := End(s, net, run).cell;
      forall k: nat | k < |cell| :: Authentic(s, cell[k], k)
  {
    hide Authentic, QuorumOf, RoundOk, LedgerOk, Inv, IsRunOfRounds, End;
    RunKeepsOrder(s, net, run);
    var net' := End(s, net, run);
    forall k: nat | k < |net'.cell|
      ensures Authentic(s, net'.cell[k], k)
    {
      assert PublishedOk(s, net', k);
    }
  }

  /**
   And each stands on a quorum: at least t members have signed the k-th value's list, as
   version k, at slot genesis + k, and at that slot none of them signed anything else.
   */
  lemma PublishedOnQuorum(s: Setup, net: Net, run: seq<Step>, k: nat) returns (q: set<nat>)
    requires Start(s, net) && IsRunOfRounds(s, net, run) && k < |End(s, net, run).cell|
    ensures Authentic(s, End(s, net, run).cell[k], k) && s.committee.genesis + k <= U32_MAX
    ensures |q| >= s.committee.t
    ensures var net' := End(s, net, run);
      forall i <- q :: i < |net'.members| && SignedIn(s, net'.cell[k], k, net'.members[i].signed)
  {
    hide Authentic, QuorumOf, RoundOk, Inv, IsRunOfRounds, End, MessageOf, Decoded;
    RunKeepsOrder(s, net, run);
    var net' := End(s, net, run);
    assert PublishedOk(s, net', k);
    var r := net'.history[k];
    assert RoundOk(s, net', r);
    q := QuorumMembers(s, net', r);
    forall i | i in q
      ensures i < |net'.members| && SignedIn(s, net'.cell[k], k, net'.members[i].signed)
    {
      assert AnsweredOk(s, net', i, r);
      OneSignaturePerSlot(s.envs[i], net'.members[i]);
    }
  }

  /** This log signs these bytes' list, as version k, at slot genesis + k, and at that slot nothing else. */
  predicate SignedIn(s: Setup, bytes: Bytes, k: nat, log: seq<Signed<Bytes>>) {
    && s.committee.genesis + k <= U32_MAX && k <= U32_MAX && Decoded(s.form, bytes).Some?
    && var message := MessageOf(s.crypto, s.committee, WotsXmss, Decoded(s.form, bytes).value.List(), k);
       && Signed(s.committee.genesis + k, message) in log
       && forall e <- log :: e.slot == s.committee.genesis + k ==> e.message == message
  }

  // --------------------------------------------------------- calls are runs of steps

  lemma ExtendRounds(s: Setup, net: Net, run: seq<Step>, step: Step)
    requires |s.envs| == |net.members| && IsRunOfRounds(s, net, run) && CanStep(s, End(s, net, run), step)
    ensures IsRunOfRounds(s, net, run + [step]) && End(s, net, run + [step]) == Do(s, End(s, net, run), step)
  {
    var longer := run + [step];
    assert longer[..|longer| - 1] == run;
  }

  lemma OneStep(s: Setup, net: Net, step: Step)
    requires |s.envs| == |net.members| && CanStep(s, net, step)
    ensures IsRunOfRounds(s, net, [step]) && End(s, net, [step]) == Do(s, net, step)
  {
    ExtendRounds(s, net, [], step);
    assert [] + [step] == [step];
  }

  lemma {:induction false} ConcatenateRounds(s: Setup, net: Net, first: seq<Step>, second: seq<Step>)
    requires |s.envs| == |net.members| && IsRunOfRounds(s, net, first) && IsRunOfRounds(s, End(s, net, first), second)
    ensures IsRunOfRounds(s, net, first + second)
    ensures End(s, net, first + second) == End(s, End(s, net, first), second)
    decreases |second|
  {
    hide CanStep, Do;
    if second == [] {
      assert first + second == first;
    } else {
      var k := |second| - 1;
      ConcatenateRounds(s, net, first, second[..k]);
      SplitLast(first, second);
    }
  }

  lemma {:induction false} SignedOnlyGrows(env: Env, w: World<Bytes>, run: seq<Event<Bytes>>)
    requires IsRun(env, w, run)
    ensures |After(env, w, run).signed| >= |w.signed|
    decreases |run|
  {
    hide Apply, Enabled;
    if run != [] {
      var k := |run| - 1;
      SignedOnlyGrows(env, w, run[..k]);
      SignedGrows(env, After(env, w, run[..k]), run[k]);
    }
  }

  /** A stretch of one member's slot events in which it signed nothing, or the message of a given round. */
  predicate AnswersAtMost(s: Setup, net: Net, i: nat, round: Option<nat>, w': World<Bytes>)
    requires i < |net.members|
  {
    || w'.signed == net.members[i].signed
    || (round.Some? && round.value < |net.rounds| &&
        var r := net.rounds[round.value];
        && SlotOf(s, r).Some? && (i, round.value) in net.checked
        && w'.signed == net.members[i].signed + [Signed(SlotOf(s, r).value, MessageFor(s, r))])
  }

  /** What such a stretch leaves. */
  function AfterCall(net: Net, i: nat, round: Option<nat>, w': World<Bytes>): Net
    requires i < |net.members|
  {
    var answers := if round.None? || w'.signed == net.members[i].signed then {} else {(i, round.value)};
    net.(members := net.members[i := w'], answered := net.answered + answers)
  }

  /** The step of the rounds that an event of such a stretch is. */
  function StepOf(i: nat, round: Option<nat>, e: Event<Bytes>): Step {
    if SignsNothing(e) || round.None? then SlotStep(i, e) else SignFor(i, round.value, e.p)
  }

  /** Such a stretch is a run of the members' steps. */
  lemma {:induction false} CallIsRun(s: Setup, net: Net, i: nat, round: Option<nat>, events: seq<Event<Bytes>>)
    returns (steps: seq<Step>)
    requires |s.envs| == |net.members| && i < |net.members|
    requires IsRun(s.envs[i], net.members[i], events) && Contracted(s.envs[i], net.members[i], events)
    requires AnswersAtMost(s, net, i, round, After(s.envs[i], net.members[i], events))
    ensures IsRunOfRounds(s, net, steps)
    ensures End(s, net, steps) == AfterCall(net, i, round, After(s.envs[i], net.members[i], events))
    decreases |events|
  {
    hide Apply, Enabled, Contract, SlotOf, MessageFor;
    steps := [];
    if events == [] {
      assert net.members[i := net.members[i]] == net.members;
    } else {
      var env, w, k := s.envs[i], net.members[i], |events| - 1;
      var w1, e := After(env, w, events[..k]), events[k];
      SignedOnlyGrows(env, w, events[..k]);
      SignedGrows(env, w1, e);
      LastEvent(s, net, i, round, w1, e);
      steps := CallIsRun(s, net, i, round, events[..k]);
      var step := StepOf(i, round, e);
      EventIsStep(s, net, i, round, w1, e);
      ExtendRounds(s, net, steps, step);
      steps := steps + [step];
    }
  }

  /** Only the last event of a stretch can be its signature. */
  lemma LastEvent(s: Setup, net: Net, i: nat, round: Option<nat>, w1: World<Bytes>, e: Event<Bytes>)
    requires i < |net.members| && i < |s.envs| && Enabled(s.envs[i], w1, e)
    requires |w1.signed| >= |net.members[i].signed|
    requires AnswersAtMost(s, net, i, round, Apply(s.envs[i], w1, e))
    ensures AnswersAtMost(s, net, i, round, w1)
    ensures !SignsNothing(e) ==> w1.signed == net.members[i].signed
  {
    SignedGrows(s.envs[i], w1, e);
    hide Apply, SlotOf, MessageFor;
    if !SignsNothing(e) {
      var w' := Apply(s.envs[i], w1, e);
      assert w'.signed[..|w1.signed|] == w1.signed;
    }
  }

  lemma EventIsStep(s: Setup, net: Net, i: nat, round: Option<nat>, w1: World<Bytes>, e: Event<Bytes>)
    requires |s.envs| == |net.members| && i < |net.members|
    requires Enabled(s.envs[i], w1, e) && Contract(s.envs[i], w1, e)
    requires AnswersAtMost(s, net, i, round, w1) && AnswersAtMost(s, net, i, round, Apply(s.envs[i], w1, e))
    requires !SignsNothing(e) ==> w1.signed == net.members[i].signed
    ensures var at, step := AfterCall(net, i, round, w1), StepOf(i, round, e);
      && CanStep(s, at, step)
      && Do(s, at, step) == AfterCall(net, i, round, Apply(s.envs[i], w1, e))
  {
    SignedGrows(s.envs[i], w1, e);
    hide SlotOf, MessageFor;
    var w', signed := Apply(s.envs[i], w1, e), net.members[i].signed;
    assert net.members[i := w1][i := w'] == net.members[i := w'];
    if !SignsNothing(e) {
      assert w'.signed[|signed|] == Signed(w1.procs[e.p].slot, e.message);
      assert w'.signed != signed;
    }
  }

  /** A member's call on round `r`: it signed nothing, or its check passed and it signed the round's message. */
  predicate Answered(s: Setup, net: Net, i: nat, r: nat, read: Option<nat>, w': World<Bytes>)
    requires i < |net.members| && r < |net.rounds|
  {
    var policy := Policy(s.committee, s.form, Read(net, read), net.rounds[r].version);
    w'.signed == net.members[i].signed
    || (policy.Ok? && w'.signed == net.members[i].signed + [Signed(policy.value, MessageFor(s, net.rounds[r]))])
  }

  /** Such a call is a run of steps: the check, then the slot events with the signature among them. */
  lemma AnswerIsRun(s: Setup, net: Net, i: nat, r: nat, read: Option<nat>, events: seq<Event<Bytes>>)
    returns (steps: seq<Step>)
    requires |s.envs| == |net.members| && i < |net.members| && r < |net.rounds|
    requires IsRun(s.envs[i], net.members[i], events) && Contracted(s.envs[i], net.members[i], events)
    requires Answered(s, net, i, r, read, After(s.envs[i], net.members[i], events))
    ensures IsRunOfRounds(s, net, steps)
    ensures var w', net' := After(s.envs[i], net.members[i], events), End(s, net, steps);
      && net'.members == net.members[i := w'] && net'.cell == net.cell && net'.rounds == net.rounds
      && (w'.signed != net.members[i].signed ==> (i, r) in net'.answered)
  {
    hide IsRun, After, Contracted, MessageFor, Read;
    var w' := After(s.envs[i], net.members[i], events);
    if w'.signed == net.members[i].signed {
      steps := CallIsRun(s, net, i, Some(r), events);
    } else {
      OneStep(s, net, Check(i, r, read));
      var checked := Do(s, net, Check(i, r, read));
      var call := CallIsRun(s, checked, i, Some(r), events);
      hide IsRunOfRounds, End;
      ConcatenateRounds(s, net, [Check(i, r, read)], call);
      steps := [Check(i, r, read)] + call;
    }
  }

  /** Members that were created, opened and crashed before any round, signing nothing. */
  ghost predicate Quiet(s: Setup, net: Net, logs: seq<seq<Event<Bytes>>>) {
    |logs| == |net.members| == |s.envs| && forall i | 0 <= i < |logs| :: QuietLog(s.envs[i], net.members[i], logs[i])
  }

  ghost predicate QuietLog(env: Env, w: World<Bytes>, events: seq<Event<Bytes>>) {
    IsRun(env, w, events) && Contracted(env, w, events) && After(env, w, events).signed == w.signed
  }

  /** The worlds after the first `n` members' logs. */
  ghost function Moved(s: Setup, net: Net, logs: seq<seq<Event<Bytes>>>, n: nat): (members: seq<World<Bytes>>)
    requires Quiet(s, net, logs)
    ensures |members| == |net.members|
  {
    seq(|net.members|, i requires 0 <= i < |net.members| =>
      if i < n && QuietLog(s.envs[i], net.members[i], logs[i]) then After(s.envs[i], net.members[i], logs[i])
      else net.members[i])
  }

  /** What happened before the first round is a run, too. */
  lemma {:induction false} QuietIsRun(s: Setup, net: Net, logs: seq<seq<Event<Bytes>>>, n: nat)
    returns (steps: seq<Step>)
    requires Quiet(s, net, logs) && n <= |logs|
    ensures IsRunOfRounds(s, net, steps) && End(s, net, steps) == net.(members := Moved(s, net, logs, n))
    decreases n
  {
    hide IsRun, After, Contracted;
    steps := [];
    if n == 0 {
      assert Moved(s, net, logs, 0) == net.members;
    } else {
      steps := QuietIsRun(s, net, logs, n - 1);
      var before := net.(members := Moved(s, net, logs, n - 1));
      assert QuietLog(s.envs[n - 1], net.members[n - 1], logs[n - 1]);
      var more := CallIsRun(s, before, n - 1, None, logs[n - 1]);
      hide IsRunOfRounds, End;
      ConcatenateRounds(s, net, steps, more);
      steps := steps + more;
      var last := After(s.envs[n - 1], net.members[n - 1], logs[n - 1]);
      assert Moved(s, net, logs, n - 1)[n - 1 := last] == Moved(s, net, logs, n);
      assert before.answered + {} == before.answered;
    }
  }

  /** A run that ends in another run. */
  lemma {:induction false} SplitRun(env: Env, w: World<Bytes>, first: seq<Event<Bytes>>, second: seq<Event<Bytes>>)
    requires IsRun(env, w, first + second) && Contracted(env, w, first + second)
    ensures IsRun(env, w, first) && IsRun(env, After(env, w, first), second)
    ensures Contracted(env, After(env, w, first), second)
    ensures After(env, After(env, w, first), second) == After(env, w, first + second)
    decreases |second|
  {
    hide Apply, Enabled, Contract;
    if second == [] {
      assert first + second == first;
    } else {
      SplitLast(first, second);
      SplitRun(env, w, first, second[..|second| - 1]);
    }
  }

  /** The same from a log that grew during the call. */
  lemma LoggedCallIsRun(s: Setup, net: Net, i: nat, r: nat, read: Option<nat>, start: World<Bytes>,
                        before: seq<Event<Bytes>>, log: seq<Event<Bytes>>)
    returns (steps: seq<Step>)
    requires |s.envs| == |net.members| && i < |net.members| && r < |net.rounds| && before <= log
    requires IsRun(s.envs[i], start, log) && Contracted(s.envs[i], start, log)
    requires IsRun(s.envs[i], start, before) && net.members[i] == After(s.envs[i], start, before)
    requires Answered(s, net, i, r, read, After(s.envs[i], start, log))
    ensures IsRunOfRounds(s, net, steps)
    ensures var w', net' := After(s.envs[i], start, log), End(s, net, steps);
      && net'.members == net.members[i := w'] && net'.cell == net.cell && net'.rounds == net.rounds
      && (w'.signed != net.members[i].signed ==> (i, r) in net'.answered)
  {
    hide IsRun, After, Contracted, Answered, IsRunOfRounds, End;
    var events := log[|before|..];
    assert log == before + events;
    SplitRun(s.envs[i], start, before, events);
    steps := AnswerIsRun(s, net, i, r, read, events);
  }
}
