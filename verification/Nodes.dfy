/**
 The relying parties: decode, verify, and only then offer the version to the
 high-water mark. Bytes in, an outcome out, over either published form.
 */
module Nodes {
  import opened Prelude
  import opened ByteStrings
  import opened Storage
  import opened Anchor
  import opened Statement
  import opened StatusList
  import opened Verifiers
  import opened Agreement
  import Ssz
  import Freshness
  import MarkProtocol

  datatype Form = RawForm | SnarkForm

  /** `from_bytes`, in the form a deployment picked. */
  function Decoded(form: Form, bytes: Bytes): Option<Published> {
    match form
    case RawForm =>
      var r := RawFromBytes(bytes);
      if r.Ok? then Some(Raw(r.value)) else None
    case SnarkForm =>
      var r := SnarkFromBytes(bytes);
      if r.Ok? then Some(Snark(r.value)) else None
  }

  /** The version that these bytes authenticate, if they authenticate one. */
  function Verdict(x: Crypto, c: Committee, form: Form, bytes: Bytes): Option<u32> {
    var record := Decoded(form, bytes);
    if record.Some? && Accepts(x, c, record.value) then Some(record.value.Version()) else None
  }

  predicate Authenticates(x: Crypto, c: Committee, form: Form, env: MarkProtocol.Env, bytes: Bytes, version: u32) {
    env.authentic(bytes, version) == (Verdict(x, c, form, bytes) == Some(version))
  }

  /** The mark's protocol counts as authentic exactly what this anchor verifies. */
  ghost predicate GatedBy(x: Crypto, c: Committee, form: Form, env: MarkProtocol.Env) {
    forall bytes, version :: Authenticates(x, c, form, env, bytes, version)
  }

  datatype Outcome = Accepted(version: u32) | Stale(version: u32, mark: u32) | Refused

  /** `Outcome::advance`: the one place a node moves its mark. */
  method Advance(mark: Freshness.HighWaterMark, version: u32, record: Bytes, fate: ReplaceFate) returns (o: Outcome)
    requires mark.Valid() && fate.Possible()
    modifies mark, mark.host
    ensures mark.Valid() && old(mark.host.log) <= mark.host.log
    ensures old(mark.host.Sound()) && mark.host.env.authentic(record, version) ==> mark.host.Sound()
    ensures o ==
      if old(mark.have) && version <= old(mark.current) then Stale(version, old(mark.current))
      else if fate.Succeeds() then Accepted(version) else Refused
    ensures o.Accepted? ==>
      && mark.Current() == Some(version)
      && mark.host.world.accepted == old(mark.host.world.accepted) + [MarkProtocol.Acceptance(record, version)]
    ensures !o.Accepted? ==>
      mark.Current() == old(mark.Current()) && mark.host.world.accepted == old(mark.host.world.accepted)
  {
    var decision := mark.TryAdvance(version, record, fate);
    match decision
    case Ok(Accepted) => return Outcome.Accepted(version);
    case Ok(Stale(current)) => return Outcome.Stale(version, current);
    case Err(_) => return Refused;
  }

  /** What a node answers, as a function of the mark it stood at. */
  function Answer(verdict: Option<u32>, mark: MarkProtocol.Mark, fate: ReplaceFate): Outcome {
    match verdict
    case None => Refused
    case Some(version) =>
      if mark.Some? && version <= mark.value then Stale(version, mark.value)
      else if fate.Succeeds() then Accepted(version) else Refused
  }

  class RawNode {
    const crypto: Crypto
    const committee: Committee
    const mark: Freshness.HighWaterMark

    ghost predicate Valid()
      reads this, mark, mark.host
    {
      mark.Valid() && GatedBy(crypto, committee, RawForm, mark.host.env)
    }

    constructor (crypto: Crypto, committee: Committee, mark: Freshness.HighWaterMark)
      requires mark.Valid() && GatedBy(crypto, committee, RawForm, mark.host.env)
      ensures Valid() && this.crypto == crypto && this.committee == committee && this.mark == mark
    {
      this.crypto, this.committee, this.mark := crypto, committee, mark;
    }

    method Accept(bytes: Bytes, fate: ReplaceFate) returns (o: Outcome)
      requires Valid() && fate.Possible()
      modifies mark, mark.host
      ensures Valid() && old(mark.host.log) <= mark.host.log
      ensures old(mark.host.Sound()) ==> mark.host.Sound()
      ensures o == Answer(Verdict(crypto, committee, RawForm, bytes), old(mark.Current()), fate)
      ensures mark.Current() == if o.Accepted? then Some(o.version) else old(mark.Current())
      ensures mark.host.world.accepted ==
        old(mark.host.world.accepted) + if o.Accepted? then [MarkProtocol.Acceptance(bytes, o.version)] else []
    {
      hide RawFromBytes, VerifyRaw;
      var record := RawFromBytes(bytes);
      if record.Err? {
        return Refused;
      }
      if !VerifyRaw(crypto, committee, record.value) {
        return Refused;
      }
      assert Authenticates(crypto, committee, RawForm, mark.host.env, bytes, record.value.version);
      o := Advance(mark, record.value.version, bytes, fate);
    }
  }

  class SnarkNode {
    const crypto: Crypto
    const committee: Committee
    const mark: Freshness.HighWaterMark

    ghost predicate Valid()
      reads this, mark, mark.host
    {
      mark.Valid() && GatedBy(crypto, committee, SnarkForm, mark.host.env)
    }

    constructor (crypto: Crypto, committee: Committee, mark: Freshness.HighWaterMark)
      requires mark.Valid() && GatedBy(crypto, committee, SnarkForm, mark.host.env)
      ensures Valid() && this.crypto == crypto && this.committee == committee && this.mark == mark
    {
      this.crypto, this.committee, this.mark := crypto, committee, mark;
    }

    method Accept(bytes: Bytes, fate: ReplaceFate) returns (o: Outcome)
      requires Valid() && fate.Possible()
      modifies mark, mark.host
      ensures Valid() && old(mark.host.log) <= mark.host.log
      ensures old(mark.host.Sound()) ==> mark.host.Sound()
      ensures o == Answer(Verdict(crypto, committee, SnarkForm, bytes), old(mark.Current()), fate)
      ensures mark.Current() == if o.Accepted? then Some(o.version) else old(mark.Current())
      ensures mark.host.world.accepted ==
        old(mark.host.world.accepted) + if o.Accepted? then [MarkProtocol.Acceptance(bytes, o.version)] else []
    {
      hide SnarkFromBytes, VerifySnark;
      var record := SnarkFromBytes(bytes);
      if record.Err? {
        return Refused;
      }
      if !VerifySnark(crypto, committee, record.value) {
        return Refused;
      }
      assert Authenticates(crypto, committee, SnarkForm, mark.host.env, bytes, record.value.version);
      o := Advance(mark, record.value.version, bytes, fate);
    }
  }

  // ------------------------------------------------------------------- whole lives

  /** A relying party's whole history, restarts and crashes included. */
  datatype Party = Party(form: Form, env: MarkProtocol.Env, start: MarkProtocol.World, run: seq<MarkProtocol.Event>)

  ghost predicate Sound(x: Crypto, c: Committee, p: Party) {
    && GatedBy(x, c, p.form, p.env) && MarkProtocol.Init(p.env, p.start)
    && MarkProtocol.IsRun(p.env, p.start, p.run) && MarkProtocol.Contracted(p.env, p.start, p.run)
  }

  ghost function AcceptedBy(x: Crypto, c: Committee, p: Party): seq<MarkProtocol.Acceptance>
    requires Sound(x, c, p)
  {
    MarkProtocol.After(p.env, p.start, p.run).accepted
  }

  lemma DecodedListIsSized(form: Form, bytes: Bytes)
    requires Decoded(form, bytes).Some?
    ensures Ssz.AllOfSize(Decoded(form, bytes).value.List(), ENTRY_BYTES)
  {
    match form
    case RawForm => RawEncodeOfDecode(bytes);
    case SnarkForm => SnarkEncodeOfDecode(bytes);
  }

  /**
   In every life of a relying party the accepted versions strictly increase, and
   each stands on a quorum of members that signed that very list and version.
   */
  lemma AcceptedStandOnQuorums(x: Crypto, c: Committee, members: seq<Member>, p: Party)
    requires Ideal(x, c, members) && Sound(x, c, p)
    ensures MarkProtocol.Increasing(AcceptedBy(x, c, p))
    ensures forall i | 0 <= i < |AcceptedBy(x, c, p)| :: StandsOnQuorum(x, c, members, p.form, AcceptedBy(x, c, p)[i])
  {
    hide Ideal, Decoded, Accepts;
    MarkProtocol.NeverRollsBack(p.env, p.start, p.run);
    var accepted := AcceptedBy(x, c, p);
    forall i | 0 <= i < |accepted|
      ensures StandsOnQuorum(x, c, members, p.form, accepted[i])
    {
      assert Authenticates(x, c, p.form, p.env, accepted[i].record, accepted[i].version);
      var record := Decoded(p.form, accepted[i].record).value;
      var q := QuorumOf(x, c, members, record);
      MembersAreHonest(x, c, members);
      var slot := c.genesis + accepted[i].version;
      assert IsQuorum(c, members, q, MessageOf(x, c, record.Alg(), record.List(), accepted[i].version), slot);
    }
  }

  lemma MembersAreHonest(x: Crypto, c: Committee, members: seq<Member>)
    requires Ideal(x, c, members)
    ensures |members| == |c.members| && forall i | 0 <= i < |members| :: Honest(members[i])
  {
  }

  ghost predicate StandsOnQuorum(x: Crypto, c: Committee, members: seq<Member>, form: Form, a: MarkProtocol.Acceptance)
    requires Ideal(x, c, members)
  {
    var record, slot := Decoded(form, a.record), c.genesis + a.version;
    && record.Some? && record.value.Version() == a.version && slot <= U32_MAX
    && exists q ::
         IsQuorum(c, members, q, MessageOf(x, c, record.value.Alg(), record.value.List(), a.version), slot)
  }

  /**
   Agreement between relying parties: whatever forms they read and whenever they ran,
   two that accepted one version accepted one list, short of a BLAKE2s collision.
   */
  lemma PartiesAgree(x: Crypto, c: Committee, members: seq<Member>, p: Party, p': Party, i: nat, j: nat)
    requires Coherent(x.hashes.sha3, c) && 2 * c.t > |c.members| && Ideal(x, c, members)
    requires Sound(x, c, p) && Sound(x, c, p')
    requires i < |AcceptedBy(x, c, p)| && j < |AcceptedBy(x, c, p')|
    requires AcceptedBy(x, c, p)[i].version == AcceptedBy(x, c, p')[j].version
    ensures var a, b := AcceptedBy(x, c, p)[i], AcceptedBy(x, c, p')[j];
      var r, s := Decoded(p.form, a.record), Decoded(p'.form, b.record);
      && r.Some? && s.Some?
      && (r.value.List() == s.value.List() || SameDigest(x, c, r.value, s.value))
  {
    hide Ideal, Decoded, Accepts, Coherent;
    MarkProtocol.NeverRollsBack(p.env, p.start, p.run);
    MarkProtocol.NeverRollsBack(p'.env, p'.start, p'.run);
    var a, b := AcceptedBy(x, c, p)[i], AcceptedBy(x, c, p')[j];
    assert Authenticates(x, c, p.form, p.env, a.record, a.version);
    assert Authenticates(x, c, p'.form, p'.env, b.record, b.version);
    DecodedListIsSized(p.form, a.record);
    DecodedListIsSized(p'.form, b.record);
    AcceptedListsAgree(x, c, members, Decoded(p.form, a.record).value, Decoded(p'.form, b.record).value);
  }
}
