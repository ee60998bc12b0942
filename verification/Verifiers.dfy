/**
 The predicates that authorise an update: a quorum of raw signatures, and one
 aggregate over a quorum's keys. When they accept, when they decide alike, and why
 two records they accept at one version carry one list.
 */
module Verifiers {
  import opened Prelude
  import opened ByteStrings
  import opened Anchor
  import opened Statement
  import opened Signers
  import opened StatusList
  import Quorums

  /** One group of an aggregate: these keys signed this message at this slot. */
  datatype Group = Group(slot: u32, message: Bytes, keys: seq<Bytes>)

  datatype Aggregate = Aggregate(sphincsSigners: seq<Bytes>, groups: seq<Group>, proof: Bytes)

  /** The foreign cryptography: XMSS verification and leanVM aggregates. */
  datatype Crypto = Crypto(
    hashes: Hashes,
    verify: (Bytes, Bytes, Bytes, u32) -> bool,    // key, message, signature, slot
    parse: Bytes -> Option<Aggregate>,
    show: Aggregate -> Bytes,
    proves: Aggregate -> bool)

  // ---------------------------------------------------------------------- raw form

  datatype VerifierError = NotAMember | BadSignature

  /** `VerifierNode::verify`: one signature, one claimed member. */
  function VerifyOne(x: Crypto, c: Committee, key: Bytes, signature: Bytes, message: Bytes, slot: u32)
    : Result<(), VerifierError>
  {
    if key !in c.members then Err(NotAMember)
    else if !x.verify(key, message, signature, slot) then Err(BadSignature)
    else Ok(())
  }

  /** The message a record is about, under this anchor. */
  function MessageOf(x: Crypto, c: Committee, alg: Algorithm, list: seq<Bytes>, version: u32): Bytes {
    Message(x.hashes.blake2s, c, alg, list, version)
  }

  predicate Signs(x: Crypto, c: Committee, message: Bytes, slot: u32, pair: Pair<Bytes>) {
    pair.index < |c.members| && x.verify(c.members[pair.index], message, pair.signature, slot)
  }

  /** Each signature is good under its own member's key. */
  predicate AllSign(x: Crypto, c: Committee, message: Bytes, slot: u32, pairs: SignedPairs) {
    AllGood(p => Signs(x, c, message, slot, p), pairs)
  }

  /** `verify_status_list` */
  predicate VerifyRaw(x: Crypto, c: Committee, r: RawRecord) {
    if c.t == 0 then false
    else if |r.signers| != |c.members| then false
    else if Population(r.signers) < c.t || Population(r.signers) != |r.signatures| then false
    else
      var slot := SlotFor(c.genesis, r.version);
      if slot.None? then false else
      AllSign(x, c, MessageOf(x, c, r.alg, r.list, r.version), slot.value, r.Evidence())
  }

  /**
   A record built from pairs in any order, for a committee of `n`, verifies exactly
   when it was built for this committee's size, `t` distinct members signed, genesis +
   version is a 32-bit slot, and each signature is good for its own member there.
   */
  lemma RawExactly(x: Crypto, c: Committee, alg: Algorithm, list: seq<Bytes>, version: u32, n: nat, pairs: SignedPairs)
    requires Constructed(alg, list, version, n, pairs).Ok? && 1 <= c.t
    ensures VerifyRaw(x, c, Constructed(alg, list, version, n, pairs).value) <==>
      && n == |c.members| && |pairs| >= c.t && c.genesis + version <= U32_MAX
      && AllSign(x, c, MessageOf(x, c, alg, list, version), c.genesis + version, pairs)
  {
    hide Constructed, Signs, AllGood, MessageOf, SortByIndex, SignerIndices, RawRecord.Evidence;
    ConstructedFrom(alg, list, version, n, pairs);
    if c.genesis + version <= U32_MAX {
      var message, slot := MessageOf(x, c, alg, list, version), c.genesis + version;
      AllGoodPermute(p => Signs(x, c, message, slot, p), SortByIndex(pairs), pairs);
    }
  }

  lemma ConstructedFrom(alg: Algorithm, list: seq<Bytes>, version: u32, n: nat, pairs: SignedPairs)
    requires Constructed(alg, list, version, n, pairs).Ok?
    ensures var r := Constructed(alg, list, version, n, pairs).value;
      && r.alg == alg && r.list == list && r.version == version && |r.signers| == n
      && r.Evidence() == SortByIndex(pairs) && multiset(SortByIndex(pairs)) == multiset(pairs)
      && Population(r.signers) == |pairs| == |r.signatures|
  {
    PairsRoundTrip(n, pairs);
    SortedPermutation(pairs);
  }

  // -------------------------------------------------------------------- SNARK form

  /** `proof`: the aggregate in a record, in its one encoding. */
  function ProofOf(x: Crypto, r: SnarkRecord): Option<Aggregate> {
    var agg := x.parse(r.proof);
    if agg.None? || x.show(agg.value) != r.proof then None else agg
  }

  predicate Check(x: Crypto, c: Committee, r: SnarkRecord, agg: Aggregate) {
    if agg.sphincsSigners != [] then false
    else if |agg.groups| != 1 then false
    else
      var group := agg.groups[0];
      if exists i | 0 <= i < |group.keys| :: group.keys[i] !in c.members then false
      else if group.message != MessageOf(x, c, r.alg, r.list, r.version) then false
      else if SlotFor(c.genesis, r.version) != Some(group.slot) then false
      else if |group.keys| < c.t then false
      else x.proves(agg)
  }

  predicate VerifySnark(x: Crypto, c: Committee, r: SnarkRecord) {
    var agg := ProofOf(x, r);
    agg.Some? && Check(x, c, r, agg.value)
  }

  /** leanVM hands out only aggregates whose key lists have no repeats. */
  predicate KeysDistinct(agg: Aggregate) {
    forall g | 0 <= g < |agg.groups| :: Distinct(agg.groups[g].keys)
  }

  /** The members whose keys are among `keys`. */
  function Holders(c: Committee, keys: seq<Bytes>): set<nat> {
    set i | 0 <= i < |c.members| && c.members[i] in keys
  }

  lemma {:induction false} EnoughHolders(c: Committee, keys: seq<Bytes>)
    requires Distinct(keys) && forall k <- keys :: k in c.members
    ensures |Holders(c, keys)| >= |keys|
    decreases |keys|
  {
    if keys != [] {
      var n := |keys| - 1;
      assert keys[n] in keys && forall k <- keys[..n] :: k in keys;
      EnoughHolders(c, keys[..n]);
      var i :| 0 <= i < |c.members| && c.members[i] == keys[n];
      assert keys[n] !in keys[..n] && keys == keys[..n] + [keys[n]];
      Quorums.GrowCard(Holders(c, keys[..n]) + {i}, Holders(c, keys));
    }
  }

  lemma {:induction false} FewHolders(c: Committee, keys: seq<Bytes>)
    requires Distinct(c.members)
    ensures |Holders(c, keys)| <= |keys|
    decreases |keys|
  {
    if keys == [] {
      assert Holders(c, keys) == {};
    } else {
      var n := |keys| - 1;
      FewHolders(c, keys[..n]);
      assert keys == keys[..n] + [keys[n]];
      var last := Holders(c, [keys[n]]);
      OneHolder(c, keys[n]);
      assert Holders(c, keys) == Holders(c, keys[..n]) + last;
    }
  }

  lemma OneHolder(c: Committee, key: Bytes)
    requires Distinct(c.members)
    ensures |Holders(c, [key])| <= 1
  {
    var holders := Holders(c, [key]);
    if holders != {} {
      var i :| i in holders;
      assert holders == {i};
    }
  }

  /** The list names the keys of exactly these members. */
  ghost predicate KeysOf(c: Committee, keys: seq<Bytes>, q: set<nat>) {
    && (forall i <- q :: i < |c.members| && c.members[i] in keys)
    && (forall k <- keys :: exists i <- q :: i < |c.members| && c.members[i] == k)
  }

  /**
   What acceptance of a proof means: its bytes are the one encoding of a statement that
   proves, that some quorum of at least `t` distinct members signed the record's message
   at slot genesis + version, and nothing else.
   */
  lemma SnarkProvesQuorum(x: Crypto, c: Committee, r: SnarkRecord)
    requires Coherent(x.hashes.sha3, c) && (ProofOf(x, r).Some? ==> KeysDistinct(ProofOf(x, r).value))
    ensures VerifySnark(x, c, r) <==>
      exists q, slot: u32, keys, proof ::
        && |q| >= c.t && KeysOf(c, keys, q) && slot == c.genesis + r.version
        && x.parse(r.proof) == Some(QuorumStatement(x, c, r, slot, keys, proof))
        && x.show(QuorumStatement(x, c, r, slot, keys, proof)) == r.proof
        && x.proves(QuorumStatement(x, c, r, slot, keys, proof))
  {
    hide MessageOf, ToBytes;
    if VerifySnark(x, c, r) {
      var agg := ProofOf(x, r).value;
      var g := agg.groups[0];
      assert agg == QuorumStatement(x, c, r, g.slot, g.keys, agg.proof);
      EnoughHolders(c, g.keys);
      HoldersHold(c, g.keys);
    }
    if ProofOf(x, r).Some? && |ProofOf(x, r).value.groups| == 1 {
      var keys := ProofOf(x, r).value.groups[0].keys;
      FewHolders(c, keys);
      forall q | KeysOf(c, keys, q)
        ensures |q| <= |keys| && forall i | 0 <= i < |keys| :: keys[i] in c.members
      {
        Quorums.GrowCard(q, Holders(c, keys));
        assert forall i | 0 <= i < |keys| :: keys[i] in keys;
      }
    }
  }

  /** The aggregate that says: these keys signed this record's message at this slot. */
  function QuorumStatement(x: Crypto, c: Committee, r: SnarkRecord, slot: u32, keys: seq<Bytes>, proof: Bytes)
    : Aggregate
  {
    Aggregate([], [Group(slot, MessageOf(x, c, r.alg, r.list, r.version), keys)], proof)
  }

  lemma HoldersHold(c: Committee, keys: seq<Bytes>)
    requires forall k <- keys :: k in c.members
    ensures KeysOf(c, keys, Holders(c, keys))
  {
    forall k | k in keys
      ensures exists i <- Holders(c, keys) :: i < |c.members| && c.members[i] == k
    {
      var i :| 0 <= i < |c.members| && c.members[i] == k;
      assert i in Holders(c, keys);
    }
  }

  /** The keys a raw record's set bits name. */
  function NamedKeys(c: Committee, r: RawRecord): (keys: seq<Bytes>)
    requires |r.signers| == |c.members|
  {
    IndicesInRange(r.signers);
    var indices := SignerIndices(r.signers);
    seq(|indices|, i requires 0 <= i < |indices| => c.members[indices[i]])
  }

  /**
   What the honest prover hands over for a raw record: one group, over the keys its
   bits name, at the record's message and slot, that proves exactly when every
   signature verifies. Past the last slot there is no slot to aggregate at.
   */
  ghost predicate AggregateOf(x: Crypto, c: Committee, r: RawRecord, agg: Aggregate)
    requires |r.signers| == |c.members|
  {
    && agg.sphincsSigners == [] && |agg.groups| == 1
    && (var group := agg.groups[0];
        && group.message == MessageOf(x, c, r.alg, r.list, r.version)
        && (c.genesis + r.version <= U32_MAX ==> group.slot == c.genesis + r.version)
        && Distinct(group.keys) && (forall k :: k in group.keys <==> k in NamedKeys(c, r))
        && (x.proves(agg) <==> AllSign(x, c, group.message, group.slot, r.Evidence())))
  }

  lemma NamedKeysDistinct(c: Committee, r: RawRecord)
    requires |r.signers| == |c.members| && Distinct(c.members)
    ensures Distinct(NamedKeys(c, r)) && |NamedKeys(c, r)| == Population(r.signers)
    ensures forall k <- NamedKeys(c, r) :: k in c.members
  {
    hide SignerIndices;
    IndicesInRange(r.signers);
    var indices, keys := SignerIndices(r.signers), NamedKeys(c, r);
    forall i, j | 0 <= i < j < |keys|
      ensures keys[i] != keys[j]
    {
      assert indices[i] < indices[j];
    }
  }

  lemma {:induction false} SameCount<T>(a: seq<T>, b: seq<T>)
    requires Distinct(a) && Distinct(b) && forall k :: k in a <==> k in b
    ensures |a| == |b|
  {
    SetOfDistinct(a);
    SetOfDistinct(b);
    assert (set k | k in a) == (set k | k in b);
  }

  lemma {:induction false} SetOfDistinct<T>(a: seq<T>)
    requires Distinct(a)
    ensures |set k | k in a| == |a|
    decreases |a|
  {
    if a == [] {
      assert (set k | k in a) == {};
    } else {
      var n := |a| - 1;
      SetOfDistinct(a[..n]);
      assert a[n] !in a[..n];
      assert (set k | k in a) == (set k | k in a[..n]) + {a[n]};
    }
  }

  /** The two published forms decide alike, for every list, version and signer set. */
  lemma FormsDecideAlike(x: Crypto, c: Committee, r: RawRecord, s: SnarkRecord)
    requires Coherent(x.hashes.sha3, c)
    requires r.WellFormed() && |r.signers| == |c.members|
    requires s.alg == r.alg && s.list == r.list && s.version == r.version
    requires ProofOf(x, s).Some? && AggregateOf(x, c, r, ProofOf(x, s).value)
    ensures VerifySnark(x, c, s) <==> VerifyRaw(x, c, r)
  {
    hide SignerIndices, MessageOf, AllSign, NamedKeys, ToBytes, RawRecord.Evidence;
    var keys := ProofOf(x, s).value.groups[0].keys;
    NamedKeysDistinct(c, r);
    SameCount(keys, NamedKeys(c, r));
    assert forall i | 0 <= i < |keys| :: keys[i] in NamedKeys(c, r);
  }
}
