/**
 Why the committee replaces a single root of trust: two records that verify under
 one anchor at one version carry one list, because two quorums share a member and
 no member's counter lets it sign twice at one slot.
 */
module Agreement {
  import opened ByteStrings
  import opened Anchor
  import Ssz
  import opened Statement
  import opened Signers
  import opened StatusList
  import opened Verifiers
  import SlotProtocol
  import SlotSafety
  import Quorums

  /** A member's whole history: its slot state, and everything that happened to it. */
  datatype Member = Member(
    env: SlotProtocol.Env,
    start: SlotProtocol.World<Bytes>,
    run: seq<SlotProtocol.Event<Bytes>>)

  ghost predicate Honest(m: Member) {
    && SlotProtocol.Init(m.env, m.start)
    && SlotProtocol.IsRun(m.env, m.start, m.run) && SlotProtocol.Contracted(m.env, m.start, m.run)
  }

  /** The member produced a signature on this message at this slot. */
  ghost predicate Signed(m: Member, message: Bytes, slot: u32)
    requires Honest(m)
  {
    SlotProtocol.Signed(slot, message) in SlotProtocol.After(m.env, m.start, m.run).signed
  }

  /** The slot ledger, seen from a signature: one slot, one message. */
  lemma OneMessagePerSlot(m: Member, message: Bytes, other: Bytes, slot: u32)
    requires Honest(m) && Signed(m, message, slot) && Signed(m, other, slot)
    ensures message == other
  {
    hide SlotProtocol.IsRun, SlotProtocol.After, SlotProtocol.Contracted, SlotProtocol.Inv, SlotProtocol.Init;
    SlotSafety.InitIsInv(m.env, m.start);
    SlotSafety.RunKeepsInv(m.env, m.start, m.run);
    SlotSafety.OneSignaturePerSlot(m.env, SlotProtocol.After(m.env, m.start, m.run));
  }

  /** A signature that verifies was produced by the member. */
  ghost predicate SignatureIsReal(x: Crypto, c: Committee, members: seq<Member>, i: nat,
                                  message: Bytes, signature: Bytes, slot: u32)
    requires i < |members| == |c.members| && Honest(members[i])
  {
    x.verify(c.members[i], message, signature, slot) ==> Signed(members[i], message, slot)
  }

  /** An aggregate that verifies stands on a signature by every key it names. */
  ghost predicate AggregateIsReal(x: Crypto, c: Committee, members: seq<Member>, i: nat, agg: Aggregate, g: nat)
    requires i < |members| == |c.members| && Honest(members[i]) && g < |agg.groups|
  {
    x.proves(agg) && c.members[i] in agg.groups[g].keys
    ==> Signed(members[i], agg.groups[g].message, agg.groups[g].slot)
  }

  /** Every member signs only through its counter, and evidence cannot be forged. */
  ghost predicate Ideal(x: Crypto, c: Committee, members: seq<Member>) {
    && |members| == |c.members|
    && (forall i | 0 <= i < |members| :: Honest(members[i]))
    && (forall i: nat, message, signature, slot: u32 | i < |members| ::
          SignatureIsReal(x, c, members, i, message, signature, slot))
    && (forall i: nat, agg: Aggregate, g: nat | i < |members| && g < |agg.groups| ::
          AggregateIsReal(x, c, members, i, agg, g))
    && (forall r :: ProofOf(x, r).Some? ==> KeysDistinct(ProofOf(x, r).value))
  }

  /** Either published form. */
  datatype Published = Raw(raw: RawRecord) | Snark(snark: SnarkRecord) {
    function Alg(): Algorithm { if Raw? then raw.alg else snark.alg }
    function List(): seq<Bytes> { if Raw? then raw.list else snark.list }
    function Version(): u32 { if Raw? then raw.version else snark.version }
  }

  predicate Accepts(x: Crypto, c: Committee, p: Published) {
    match p
    case Raw(r) => VerifyRaw(x, c, r)
    case Snark(s) => VerifySnark(x, c, s)
  }

  /** `q` is a quorum of members that signed this message at this slot. */
  ghost predicate IsQuorum(c: Committee, members: seq<Member>, q: set<nat>, message: Bytes, slot: u32)
    requires |members| == |c.members| && forall i | 0 <= i < |members| :: Honest(members[i])
  {
    |q| >= c.t && forall i <- q :: i < |members| && Signed(members[i], message, slot)
  }

  lemma QuorumOfRaw(x: Crypto, c: Committee, members: seq<Member>, r: RawRecord) returns (q: set<nat>)
    requires Ideal(x, c, members) && VerifyRaw(x, c, r)
    ensures c.genesis + r.version <= U32_MAX
    ensures IsQuorum(c, members, q, MessageOf(x, c, r.alg, r.list, r.version), c.genesis + r.version)
  {
    hide MessageOf, SignerIndices, Signed, Honest;
    var message, slot := MessageOf(x, c, r.alg, r.list, r.version), c.genesis + r.version;
    var indices, evidence := SignerIndices(r.signers), r.Evidence();
    IndicesInRange(r.signers);
    SetOfDistinct(indices);
    q := set i | i in indices;
    forall i | i in q
      ensures i < |members| && Signed(members[i], message, slot)
    {
      var k :| 0 <= k < |indices| && indices[k] == i;
      assert Signs(x, c, message, slot, evidence[k]);
      assert SignatureIsReal(x, c, members, i, message, evidence[k].signature, slot);
    }
  }

  lemma QuorumOfSnark(x: Crypto, c: Committee, members: seq<Member>, r: SnarkRecord) returns (q: set<nat>)
    requires Ideal(x, c, members) && VerifySnark(x, c, r)
    ensures c.genesis + r.version <= U32_MAX
    ensures IsQuorum(c, members, q, MessageOf(x, c, r.alg, r.list, r.version), c.genesis + r.version)
  {
    hide MessageOf, Signed, Honest, ProofOf;
    var agg := ProofOf(x, r).value;
    var group := agg.groups[0];
    assert KeysDistinct(agg);
    EnoughHolders(c, group.keys);
    q := Holders(c, group.keys);
    forall i | i in q
      ensures Signed(members[i], group.message, group.slot)
    {
      assert AggregateIsReal(x, c, members, i, agg, 0);
    }
  }

  /** What every accepted record stands on. */
  lemma QuorumOf(x: Crypto, c: Committee, members: seq<Member>, p: Published) returns (q: set<nat>)
    requires Ideal(x, c, members) && Accepts(x, c, p)
    ensures c.genesis + p.Version() <= U32_MAX
    ensures IsQuorum(c, members, q, MessageOf(x, c, p.Alg(), p.List(), p.Version()), c.genesis + p.Version())
  {
    hide Ideal, VerifyRaw, VerifySnark, MessageOf, IsQuorum;
    match p
    case Raw(r) => q := QuorumOfRaw(x, c, members, r);
    case Snark(s) => q := QuorumOfSnark(x, c, members, s);
  }

  /** The statements of two records, different but with one BLAKE2s digest. */
  ghost predicate SameDigest(x: Crypto, c: Committee, p: Published, p': Published) {
    Collision(x.hashes.blake2s,
      MessagePreimage(Domain(x.hashes.blake2s, c.fingerprint, p.Alg()), p.List(), p.Version()),
      MessagePreimage(Domain(x.hashes.blake2s, c.fingerprint, p'.Alg()), p'.List(), p'.Version()))
  }

  /**
   Agreement: with 2t > N, two accepted records of either form at one version carry
   one list, or two statements with one BLAKE2s digest are at hand.
   */
  lemma AcceptedListsAgree(x: Crypto, c: Committee, members: seq<Member>, p: Published, p': Published)
    requires Coherent(x.hashes.sha3, c) && 2 * c.t > |c.members| && Ideal(x, c, members)
    requires Accepts(x, c, p) && Accepts(x, c, p') && p.Version() == p'.Version()
    requires Ssz.AllOfSize(p.List(), ENTRY_BYTES) && Ssz.AllOfSize(p'.List(), ENTRY_BYTES)
    ensures p.List() == p'.List() || SameDigest(x, c, p, p')
  {
    hide Accepts, Coherent, Ssz.AllOfSize, MessagePreimage, Domain, Signed, Honest;
    var m := MessageOf(x, c, p.Alg(), p.List(), p.Version());
    var m' := MessageOf(x, c, p'.Alg(), p'.List(), p'.Version());
    var q := QuorumOf(x, c, members, p);
    var q' := QuorumOf(x, c, members, p');
    var i := Quorums.QuorumsMeet(|c.members|, c.t, q, q');
    OneMessagePerSlot(members[i], m, m', c.genesis + p.Version());
    MessageBinds(x.hashes, c, c, p.Alg(), p'.Alg(), p.List(), p'.List(), p.Version(), p'.Version());
  }
}
