/**
 The trust anchor: who the members are, the threshold, and the derivation of slots
 and signed messages from it.
 */
module Anchor {
  import opened Prelude
  import opened ByteStrings
  import opened Ssz

  const MAX_COMMITTEE_SIZE: nat := 2048
  const KEY_BYTES: nat := 32
  const MAX_COMMITTEE_WIRE_BYTES: nat := 16 + MAX_COMMITTEE_SIZE * KEY_BYTES

  datatype Hashes = Hashes(sha3: Hash32, blake2s: Hash32)

  /** `fingerprint` is cached by the constructors and never read from the wire. */
  datatype Committee = Committee(members: seq<Bytes>, t: nat, genesis: u32, fingerprint: Bytes)

  datatype AnchorError = WireTooLong | NotSsz | TooManyMembers | ThresholdOutOfRange | DuplicateMembers

  /** The scan with a set of the keys seen so far. */
  method HasDuplicateMembers(members: seq<Bytes>) returns (found: bool)
    ensures found == !Distinct(members)
  {
    var seen := {};
    for n := 0 to |members|
      invariant seen == set i | 0 <= i < n :: members[i]
      invariant Distinct(members[..n])
    {
      if members[n] in seen {
        return true;
      }
      seen := seen + {members[n]};
    }
    assert members[..|members|] == members;
    return false;
  }

  // ------------------------------------------------------------------- wire form

  /** members: List[Bytes32], t: uint64, genesis_slot: uint32 */
  const SCHEMA: seq<Field> := [Variable, Fixed(8), Fixed(4)]

  function WireFields(members: seq<Bytes>, t: nat, genesis: u32): (fields: seq<Bytes>)
    ensures Fits(SCHEMA, fields)
  {
    [Flatten(members), Le(t, 8), Le(genesis, 4)]
  }

  function WireBytes(members: seq<Bytes>, t: nat, genesis: u32): Bytes {
    Encode(SCHEMA, WireFields(members, t, genesis))
  }

  function ToBytes(c: Committee): Bytes {
    WireBytes(c.members, c.t, c.genesis)
  }

  function New(sha3: Hash32, members: seq<Bytes>, t: nat, genesis: u32): Result<Committee, AnchorError> {
    if !(1 <= t <= |members|) then Err(ThresholdOutOfRange)
    else if |members| > MAX_COMMITTEE_SIZE then Err(TooManyMembers)
    else if !Distinct(members) then Err(DuplicateMembers)
    else Ok(Committee(members, t, genesis, Digest(sha3, WireBytes(members, t, genesis))))
  }

  function FromBytes(sha3: Hash32, b: Bytes): Result<Committee, AnchorError> {
    if |b| > MAX_COMMITTEE_WIRE_BYTES then Err(WireTooLong) else
    var fields := Deserialize(SCHEMA, b);
    if fields.None? then Err(NotSsz) else
    var members := Chunks(fields.value[0], KEY_BYTES);
    if members.None? then Err(NotSsz) else
    var t, genesis := FromLe(fields.value[1]), FromLe(fields.value[2]);
    Pow256Values();
    if |members.value| > MAX_COMMITTEE_SIZE then Err(TooManyMembers)
    else if !(1 <= t <= |members.value|) then Err(ThresholdOutOfRange)
    else if !Distinct(members.value) then Err(DuplicateMembers)
    else Ok(Committee(members.value, t, genesis, Digest(sha3, b)))
  }

  /** What holds of every committee either constructor returns. */
  predicate Coherent(sha3: Hash32, c: Committee) {
    && AllOfSize(c.members, KEY_BYTES) && Distinct(c.members)
    && 1 <= c.t <= |c.members| <= MAX_COMMITTEE_SIZE
    && c.fingerprint == Digest(sha3, ToBytes(c))
  }

  lemma WireLength(members: seq<Bytes>, t: nat, genesis: u32)
    requires AllOfSize(members, KEY_BYTES)
    ensures |WireBytes(members, t, genesis)| == 16 + KEY_BYTES * |members|
  {
    var fields := WireFields(members, t, genesis);
    SizeStep(SCHEMA, fields);
    assert SCHEMA[1..] == [Fixed(8), Fixed(4)] && fields[1..] == [Le(t, 8), Le(genesis, 4)];
    SizeStep([Fixed(8), Fixed(4)], [Le(t, 8), Le(genesis, 4)]);
    assert [Fixed(8), Fixed(4)][1..] == [Fixed(4)] && [Le(t, 8), Le(genesis, 4)][1..] == [Le(genesis, 4)];
    SizeStep([Fixed(4)], [Le(genesis, 4)]);
    FlattenLength(members, KEY_BYTES);
  }

  /** Every committee within the bounds is accepted, as it is, and no other. */
  lemma NewIsCoherent(sha3: Hash32, members: seq<Bytes>, t: nat, genesis: u32)
    requires AllOfSize(members, KEY_BYTES)
    ensures var r := New(sha3, members, t, genesis);
      && (r.Ok? <==> 1 <= t <= |members| <= MAX_COMMITTEE_SIZE && Distinct(members))
      && (r.Ok? ==>
            && Coherent(sha3, r.value)
            && r.value.members == members && r.value.t == t && r.value.genesis == genesis)
  {
  }

  /** The bytes of an anchor: an offset, the threshold, the first slot, then key after key. */
  lemma AnchorWireForm(members: seq<Bytes>, t: nat, genesis: u32)
    ensures WireBytes(members, t, genesis) == Le(16, 4) + (Le(t, 8) + Le(genesis, 4)) + Flatten(members)
  {
    hide Le, Flatten, Heads, Tails;
    var flat, n, g := Flatten(members), Le(t, 8), Le(genesis, 4);
    assert SCHEMA[1..] == [Fixed(8), Fixed(4)] && [flat, n, g][1..] == [n, g];
    VariableStep(SCHEMA, [flat, n, g], 16);
    TwoNumbers(n, g, 16 + |flat|);
    assert flat + [] == flat;
  }

  lemma TwoNumbers(first: Bytes, second: Bytes, at: nat)
    requires |first| == 8 && |second| == 4
    ensures HeadSize(SCHEMA) == 16 && Tails([Fixed(8), Fixed(4)], [first, second]) == []
    ensures Heads([Fixed(8), Fixed(4)], [first, second], at) == first + second
  {
    assert [Fixed(8), Fixed(4)][1..] == [Fixed(4)] && [first, second][1..] == [second];
    FixedStep([Fixed(8), Fixed(4)], [first, second], at);
    FixedStep([Fixed(4)], [second], at);
    assert SCHEMA[1..] == [Fixed(8), Fixed(4)];
    assert second + [] == second;
  }

  /** An anchor has one byte form, and its cached fingerprint is that form's hash. */
  lemma DecodedIsCoherent(sha3: Hash32, b: Bytes)
    requires FromBytes(sha3, b).Ok?
    ensures var c := FromBytes(sha3, b).value; ToBytes(c) == b && Coherent(sha3, c)
  {
    var fields := Deserialize(SCHEMA, b).value;
    EncodeOfDeserialize(SCHEMA, b);
    FlattenOfChunks(fields[0], KEY_BYTES);
    LeOfFromLe(fields[1]);
    LeOfFromLe(fields[2]);
    var c := FromBytes(sha3, b).value;
    assert WireFields(c.members, c.t, c.genesis) == fields;
  }

  lemma DecodeOfEncode(sha3: Hash32, c: Committee)
    requires Coherent(sha3, c)
    ensures FromBytes(sha3, ToBytes(c)) == Ok(c)
  {
    WireLength(c.members, c.t, c.genesis);
    DeserializeOfSerialize(SCHEMA, WireFields(c.members, c.t, c.genesis));
    ChunksOfFlatten(c.members, KEY_BYTES);
    Pow256Values();
    FromLeOfLe(c.t, 8);
    FromLeOfLe(c.genesis, 4);
  }

  /** A byte string is an anchor exactly when it is the bytes of a coherent committee. */
  lemma AcceptsExactly(sha3: Hash32, b: Bytes, c: Committee)
    ensures FromBytes(sha3, b) == Ok(c) <==> Coherent(sha3, c) && ToBytes(c) == b
  {
    if FromBytes(sha3, b) == Ok(c) {
      DecodedIsCoherent(sha3, b);
    }
    if Coherent(sha3, c) {
      DecodeOfEncode(sha3, c);
    }
  }

  /** One fingerprint names one committee, short of a SHA3-256 collision. */
  lemma FingerprintBinds(sha3: Hash32, c: Committee, d: Committee)
    requires Coherent(sha3, c) && Coherent(sha3, d) && c.fingerprint == d.fingerprint
    ensures c == d || Collision(sha3, ToBytes(c), ToBytes(d))
  {
    DecodeOfEncode(sha3, c);
    DecodeOfEncode(sha3, d);
  }
}
