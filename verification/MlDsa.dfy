/**
 The ML-DSA-65 form: an anchor with a 48-byte identifier, a bounded record whose
 length is computed before it is built, and the statement its members sign.
 */
module MlDsa {
  import opened Prelude
  import opened ByteStrings
  import opened Ssz
  import opened Signers
  import opened Text
  import Anchor
  import Statement

  const MAX_COMMITTEE_SIZE: nat := 2048
  const MAX_RECORD_BYTES: nat := 64 * 1024 * 1024
  const SIGNATURE_BYTES: nat := 3309
  const PUBLIC_KEY_BYTES: nat := 1952
  const ENTRY_BYTES: nat := 32
  const ANCHOR_ID_BYTES: nat := 48
  const ALGORITHM_TAG: byte := 2
  const STATEMENT_DOMAIN: string := "decentralized-root-of-trust/ml-dsa-65/status-list/v2\0"
  const ANCHOR_ID_DOMAIN: string := "decentralized-root-of-trust/ml-dsa-65/anchor-id/v1\0"
  const MAX_COMMITTEE_WIRE_BYTES: nat := 12 + MAX_COMMITTEE_SIZE * PUBLIC_KEY_BYTES

  /** The foreign parts: SHA3-384, SHAKE256, which encodings are canonical, verification. */
  datatype Crypto = Crypto(
    sha3: Hash48,
    shake: Bytes -> Bytes,
    keyOk: Bytes -> bool,
    signatureOk: Bytes -> bool,
    verify: (Bytes, Bytes, Bytes) -> bool)       // key, message, signature

  // ------------------------------------------------------------------------ record

  type SignedPairs = seq<Pair<Bytes>>

  datatype RecordError =
    | BadMemberCount | TooManySignatures | TooLong | BadPairs(fault: PairsError)
    | BadSsz | BadTag | CountMismatch | NonCanonical | BadSignature

  datatype Record = Record(list: seq<Bytes>, version: u32, signers: seq<bool>, signatures: seq<Bytes>) {
    function Evidence(): SignedPairs {
      Zip(SignerIndices(signers), signatures)
    }
  }

  /** Every signature object has one encoding, and it is canonical. */
  predicate Sized(x: Crypto, r: Record) {
    && AllOfSize(r.list, ENTRY_BYTES) && AllOfSize(r.signatures, SIGNATURE_BYTES)
    && forall i | 0 <= i < |r.signatures| :: x.signatureOk(r.signatures[i])
  }

  function CheckedAdd(a: nat, b: nat): Option<nat> {
    if a + b <= U64_MAX then Some(a + b) else None
  }

  function CheckedMul(a: nat, b: nat): Option<nat> {
    if a * b <= U64_MAX then Some(a * b) else None
  }

  /** An unchecked 64-bit addition. */
  function WrappingAdd(a: u64, b: u64): u64 {
    if a + b <= U64_MAX then a + b else a + b - (U64_MAX + 1)
  }

  /** `record_len`, in 64-bit arithmetic; the addition inside the bitmap's length is not checked. */
  function RecordLen(n: u64, entries: nat, signatures: nat): Option<nat> {
    var list := CheckedMul(entries, ENTRY_BYTES);
    if list.None? then None else
    var withList := CheckedAdd(17, list.value);
    if withList.None? then None else
    var withBits := CheckedAdd(withList.value, WrappingAdd(n, 8) / 8);
    if withBits.None? then None else
    var evidence := CheckedMul(signatures, SIGNATURE_BYTES);
    if evidence.None? then None else CheckedAdd(withBits.value, evidence.value)
  }

  /** What `new` refuses. */
  function Fault(entries: nat, n: nat, pairs: SignedPairs): Option<RecordError> {
    if !(1 <= n <= MAX_COMMITTEE_SIZE) then Some(BadMemberCount)
    else if |pairs| > n then Some(TooManySignatures)
    else
      var length := RecordLen(n, entries, |pairs|);
      if length.None? || length.value > MAX_RECORD_BYTES then Some(TooLong)
      else
        var fault := PairsFault(n, pairs);
        if fault.Some? then Some(BadPairs(fault.value)) else None
  }

  function Constructed(list: seq<Bytes>, version: u32, n: nat, pairs: SignedPairs): Result<Record, RecordError> {
    var fault := Fault(|list|, n, pairs);
    if fault.Some? then Err(fault.value) else
    var sorted := SortByIndex(pairs);
    Ok(Record(list, version, Marked(n, Indices(sorted)), Signatures(sorted)))
  }

  method New(list: seq<Bytes>, version: u32, n: nat, pairs: SignedPairs) returns (r: Result<Record, RecordError>)
    ensures r == Constructed(list, version, n, pairs)
  {
    if !(1 <= n <= MAX_COMMITTEE_SIZE) {
      return Err(BadMemberCount);
    }
    if |pairs| > n {
      return Err(TooManySignatures);
    }
    var length := RecordLen(n, |list|, |pairs|);
    if length.None? || length.value > MAX_RECORD_BYTES {
      return Err(TooLong);
    }
    hide SortByIndex, RecordLen;
    var sorted := SortByIndex(pairs);
    if exists i | 0 <= i < |sorted| - 1 :: sorted[i].index == sorted[i + 1].index {
      return Err(BadPairs(DuplicateSigner));
    }
    if sorted != [] && sorted[|sorted| - 1].index >= n {
      return Err(BadPairs(SignerOutOfRange));
    }
    PairsRoundTrip(n, pairs);
    PairsInRange(n, sorted);
    var signers := SetSigners(n, sorted);
    return Ok(Record(list, version, signers, Signatures(sorted)));
  }

  /** alg: uint8, status_list: List[Bytes32], version: uint32, signers: Bitlist[2048], signatures: List[Signature] */
  const RECORD_SCHEMA: seq<Field> := [Fixed(1), Variable, Fixed(4), Variable, Variable]

  function RecordFields(r: Record): (fields: seq<Bytes>)
    ensures Fits(RECORD_SCHEMA, fields)
  {
    [[ALGORITHM_TAG], Flatten(r.list), Le(r.version, 4), EncodeBits(r.signers), Flatten(r.signatures)]
  }

  function ToBytes(r: Record): Option<Bytes> {
    Serialize(RECORD_SCHEMA, RecordFields(r))
  }

  function FromBytes(x: Crypto, b: Bytes): Result<Record, RecordError> {
    if |b| > MAX_RECORD_BYTES then Err(TooLong) else
    var fields := Deserialize(RECORD_SCHEMA, b);
    if fields.None? then Err(BadSsz) else
    var list := Chunks(fields.value[1], ENTRY_BYTES);
    var signers := DecodeBitlist(fields.value[3], MAX_COMMITTEE_SIZE);
    var signatures := Chunks(fields.value[4], SIGNATURE_BYTES);
    if list.None? || signers.None? || signatures.None? then Err(BadSsz)
    else if fields.value[0][0] != ALGORITHM_TAG then Err(BadTag)
    else if !(1 <= |signers.value| <= MAX_COMMITTEE_SIZE) then Err(BadMemberCount)
    else if |signatures.value| != Population(signers.value) then Err(CountMismatch)
    else
      Pow256Values();
      var r := Record(list.value, FromLe(fields.value[2]), signers.value, signatures.value);
      if Encode(RECORD_SCHEMA, RecordFields(r)) != b then Err(NonCanonical)
      else if exists i | 0 <= i < |r.signatures| :: !x.signatureOk(r.signatures[i]) then Err(BadSignature)
      else Ok(r)
  }

  lemma EncodedLength(r: Record)
    requires AllOfSize(r.list, ENTRY_BYTES) && AllOfSize(r.signatures, SIGNATURE_BYTES)
    ensures |Encode(RECORD_SCHEMA, RecordFields(r))|
         == 17 + ENTRY_BYTES * |r.list| + (|r.signers| + 8) / 8 + SIGNATURE_BYTES * |r.signatures|
  {
    hide Flatten, EncodeBits, Le, Encode;
    var fields := RecordFields(r);
    FlattenLength(r.list, ENTRY_BYTES);
    FlattenLength(r.signatures, SIGNATURE_BYTES);
    RecordShape(fields[0], fields[1], fields[2], fields[3], fields[4]);
  }

  /**
   The length computed beforehand is the length that is encoded, or no machine can hold
   it. `new` checks the committee's size first, far below where the addition would wrap.
   */
  lemma RecordLenExact(r: Record)
    requires AllOfSize(r.list, ENTRY_BYTES) && AllOfSize(r.signatures, SIGNATURE_BYTES)
    requires |r.signers| + 8 <= U64_MAX
    ensures var n := |Encode(RECORD_SCHEMA, RecordFields(r))|;
      RecordLen(|r.signers|, |r.list|, |r.signatures|) == if n <= U64_MAX then Some(n) else None
  {
    hide Encode, RecordFields;
    EncodedLength(r);
  }

  /** Everything `new` accepts encodes within the limit and decodes to the same record. */
  lemma ConstructedDecodes(x: Crypto, list: seq<Bytes>, version: u32, n: nat, pairs: SignedPairs)
    requires AllOfSize(list, ENTRY_BYTES)
    requires forall p <- pairs :: |p.signature| == SIGNATURE_BYTES && x.signatureOk(p.signature)
    requires Constructed(list, version, n, pairs).Ok?
    ensures var r := Constructed(list, version, n, pairs).value;
      && r.Evidence() == SortByIndex(pairs)
      && ToBytes(r).Some? && |ToBytes(r).value| <= MAX_RECORD_BYTES
      && FromBytes(x, ToBytes(r).value) == Ok(r)
  {
    var r := Constructed(list, version, n, pairs).value;
    PairsRoundTrip(n, pairs);
    SortedSized(x, pairs);
    hide SortByIndex, SignerIndices, Encode;
    SortedPermutation(pairs);
    RecordLenExact(r);
    DecodeOfEncode(x, r);
  }

  lemma LengthWithin(n: nat, entries: nat, signatures: nat)
    requires n <= MAX_COMMITTEE_SIZE
    ensures var length, exact := RecordLen(n, entries, signatures),
        17 + ENTRY_BYTES * entries + (n + 8) / 8 + SIGNATURE_BYTES * signatures;
      length.Some? && length.value <= MAX_RECORD_BYTES <==> exact <= MAX_RECORD_BYTES
  {
  }

  /** A record is built exactly from distinct members of a committee in bounds, within the byte limit. */
  lemma ConstructedExactly(list: seq<Bytes>, version: u32, n: nat, pairs: SignedPairs)
    ensures var r := Constructed(list, version, n, pairs);
      && (r.Ok? <==>
            && 1 <= n <= MAX_COMMITTEE_SIZE
            && Distinct(Indices(pairs)) && (forall i <- Indices(pairs) :: i < n)
            && 17 + ENTRY_BYTES * |list| + (n + 8) / 8 + SIGNATURE_BYTES * |pairs| <= MAX_RECORD_BYTES)
      && (r.Ok? ==> r.value.list == list && r.value.version == version && |r.value.signers| == n)
  {
    hide SortByIndex, PairsFault, RecordLen, Marked, Indices, Signatures;
    PairsFaultExactly(n, pairs);
    if n <= MAX_COMMITTEE_SIZE {
      LengthWithin(n, |list|, |pairs|);
    }
    if PairsFault(n, pairs).None? {
      PairsRoundTrip(n, pairs);
      AscendingFits(Indices(SortByIndex(pairs)), n);
      SortedPermutation(pairs);
    }
  }

  lemma SortedSized(x: Crypto, pairs: SignedPairs)
    requires forall p <- pairs :: |p.signature| == SIGNATURE_BYTES && x.signatureOk(p.signature)
    ensures var s := Signatures(SortByIndex(pairs));
      AllOfSize(s, SIGNATURE_BYTES) && forall i | 0 <= i < |s| :: x.signatureOk(s[i])
  {
    SortedPermutation(pairs);
    hide SortByIndex;
    var sorted := SortByIndex(pairs);
    forall i | 0 <= i < |sorted|
      ensures |sorted[i].signature| == SIGNATURE_BYTES && x.signatureOk(sorted[i].signature)
    {
      assert sorted[i] in multiset(sorted) && sorted[i] in multiset(pairs);
      assert sorted[i] in pairs;
    }
  }

  lemma DecodeOfEncode(x: Crypto, r: Record)
    requires Sized(x, r) && 1 <= |r.signers| <= MAX_COMMITTEE_SIZE && Population(r.signers) == |r.signatures|
    requires |Encode(RECORD_SCHEMA, RecordFields(r))| <= MAX_RECORD_BYTES
    ensures FromBytes(x, Encode(RECORD_SCHEMA, RecordFields(r))) == Ok(r)
  {
    hide Deserialize, Encode, Chunks, Flatten, DecodeBits, EncodeBits, SignerIndices;
    var fields := RecordFields(r);
    DeserializeOfSerialize(RECORD_SCHEMA, fields);
    ChunksOfFlatten(r.list, ENTRY_BYTES);
    ChunksOfFlatten(r.signatures, SIGNATURE_BYTES);
    DecodeOfEncodeBits(r.signers);
    Pow256Values();
    FromLeOfLe(r.version, 4);
    assert fields[0] == [ALGORITHM_TAG] && fields[2] == Le(r.version, 4);
  }

  /** The re-encoding check never fires: the wire form already has no second spelling. */
  lemma ReencodingIsRedundant(x: Crypto, b: Bytes)
    ensures FromBytes(x, b) != Err(NonCanonical)
  {
    var fields := Deserialize(RECORD_SCHEMA, b);
    if fields.Some? {
      var list := Chunks(fields.value[1], ENTRY_BYTES);
      var signers := DecodeBitlist(fields.value[3], MAX_COMMITTEE_SIZE);
      var signatures := Chunks(fields.value[4], SIGNATURE_BYTES);
      if list.Some? && signers.Some? && signatures.Some? && fields.value[0][0] == ALGORITHM_TAG {
        FieldsOfParts(fields.value, list.value, signers.value, signatures.value);
        EncodeOfDeserialize(RECORD_SCHEMA, b);
      }
    }
  }

  lemma FieldsOfParts(fields: seq<Bytes>, list: seq<Bytes>, signers: seq<bool>, signatures: seq<Bytes>)
    requires Fits(RECORD_SCHEMA, fields) && fields[0][0] == ALGORITHM_TAG
    requires Chunks(fields[1], ENTRY_BYTES) == Some(list) && Chunks(fields[4], SIGNATURE_BYTES) == Some(signatures)
    requires DecodeBits(fields[3]) == Some(signers)
    ensures FromLe(fields[2]) <= U32_MAX
    ensures RecordFields(Record(list, FromLe(fields[2]), signers, signatures)) == fields
  {
    hide Chunks, Flatten, DecodeBits, EncodeBits, Le, FromLe;
    Pow256Values();
    FlattenOfChunks(fields[1], ENTRY_BYTES);
    FlattenOfChunks(fields[4], SIGNATURE_BYTES);
    EncodeOfDecodeBits(fields[3]);
    LeOfFromLe(fields[2]);
    assert fields[0] == [fields[0][0]];
    assert RecordFields(Record(list, FromLe(fields[2]), signers, signatures)) == fields;
  }

  /** Decoding yields only what `new` builds, from exactly its own bytes. */
  lemma DecodedIsConstructed(x: Crypto, b: Bytes)
    requires FromBytes(x, b).Ok?
    ensures var r := FromBytes(x, b).value;
      && ToBytes(r) == Some(b) && Sized(x, r)
      && Constructed(r.list, r.version, |r.signers|, r.Evidence()) == Ok(r)
  {
    var r := FromBytes(x, b).value;
    DecodedFacts(x, b);
    hide FromBytes, SignerIndices, Encode, RecordLen, PairsFault, SortByIndex, Marked, RecordFields, AllOfSize;
    RecordLenExact(r);
    IndicesInRange(r.signers);
    EvidenceSorted(r.signers, r.signatures);
    assert |r.Evidence()| == |r.signatures|;
  }

  lemma DecodedFacts(x: Crypto, b: Bytes)
    requires FromBytes(x, b).Ok?
    ensures var r := FromBytes(x, b).value;
      && Sized(x, r) && Population(r.signers) == |r.signatures| && 1 <= |r.signers| <= MAX_COMMITTEE_SIZE
      && Encode(RECORD_SCHEMA, RecordFields(r)) == b && |b| <= MAX_RECORD_BYTES
  {
    hide Deserialize, Encode, Chunks, Flatten, DecodeBits, EncodeBits, SignerIndices, Le, FromLe;
  }

  /** Which byte strings decode, and to what. */
  lemma AcceptsExactly(x: Crypto, b: Bytes, r: Record)
    ensures FromBytes(x, b) == Ok(r) <==>
      && Sized(x, r) && 1 <= |r.signers| <= MAX_COMMITTEE_SIZE && Population(r.signers) == |r.signatures|
      && Encode(RECORD_SCHEMA, RecordFields(r)) == b && |b| <= MAX_RECORD_BYTES
  {
    hide FromBytes, Encode, SignerIndices, RecordFields, Sized;
    if FromBytes(x, b) == Ok(r) {
      DecodedFacts(x, b);
    }
    if Sized(x, r) && 1 <= |r.signers| <= MAX_COMMITTEE_SIZE && Population(r.signers) == |r.signatures|
       && |Encode(RECORD_SCHEMA, RecordFields(r))| <= MAX_RECORD_BYTES {
      DecodeOfEncode(x, r);
    }
  }

  /** The bytes of a record, field by field. */
  lemma WireForm(r: Record)
    requires AllOfSize(r.list, ENTRY_BYTES)
    ensures var bits := 17 + ENTRY_BYTES * |r.list|;
      var evidence := bits + |r.signers| / 8 + 1;
      Encode(RECORD_SCHEMA, RecordFields(r))
        == [2] + (Le(17, 4) + (Le(r.version, 4) + (Le(bits, 4) + Le(evidence, 4))))
             + (Flatten(r.list) + (EncodeBits(r.signers) + Flatten(r.signatures)))
  {
    hide Le, Flatten, EncodeBits, Encode;
    var fields := RecordFields(r);
    FlattenLength(r.list, ENTRY_BYTES);
    RecordWireForm(fields[0], fields[1], fields[2], fields[3], fields[4]);
  }

  // --------------------------------------------------------------------- statement

  /** alg: uint8, anchor_id: Bytes48, version: uint32, status_list: List[Bytes32] */
  const STATEMENT_SCHEMA: seq<Field> := [Fixed(1), Fixed(48), Fixed(4), Variable]

  function StatementPreimage(id: Bytes, list: seq<Bytes>, version: u32): Bytes
    requires |id| == ANCHOR_ID_BYTES
  {
    Statement.Context(STATEMENT_DOMAIN)
    + Encode(STATEMENT_SCHEMA, [[ALGORITHM_TAG], id, Le(version, 4), Flatten(list)])
  }

  /** The statement, byte by byte. */
  lemma StatementBytes(id: Bytes, list: seq<Bytes>, version: u32)
    requires |id| == ANCHOR_ID_BYTES
    ensures StatementPreimage(id, list, version) ==
      Statement.Context(STATEMENT_DOMAIN) + ([ALGORITHM_TAG] + (id + (Le(version, 4) + Le(57, 4))) + Flatten(list))
  {
    hide Le, Flatten, Statement.Context;
    var v, entries := Le(version, 4), Flatten(list);
    var n := 57;
    PartsStep(STATEMENT_SCHEMA, [[ALGORITHM_TAG], id, v, entries], n);
    assert STATEMENT_SCHEMA[1..] == [Fixed(48), Fixed(4), Variable];
    assert [[ALGORITHM_TAG], id, v, entries][1..] == [id, v, entries];
    PartsStep([Fixed(48), Fixed(4), Variable], [id, v, entries], n);
    assert [Fixed(48), Fixed(4), Variable][1..] == [Fixed(4), Variable] && [id, v, entries][1..] == [v, entries];
    PartsStep([Fixed(4), Variable], [v, entries], n);
    assert [Fixed(4), Variable][1..] == [Variable] && [v, entries][1..] == [entries];
    PartsStep([Variable], [entries], n);
    assert HeadSize(STATEMENT_SCHEMA) == 57;
    assert Heads([Variable], [entries], n) == Le(57, 4);
    assert Tails(STATEMENT_SCHEMA, [[ALGORITHM_TAG], id, v, entries]) == entries;
  }

  lemma StatementDomainIsAscii()
    ensures IsAscii(STATEMENT_DOMAIN) && |STATEMENT_DOMAIN| == 53
  {
    hide IsAscii;
    ScopesAreAscii();
    AsciiAppend("decentralized-root-of-trust/", "ml-dsa-65/status-list/v2\0");
    assert STATEMENT_DOMAIN == "decentralized-root-of-trust/" + "ml-dsa-65/status-list/v2\0";
  }

  lemma AnchorDomainIsAscii()
    ensures IsAscii(ANCHOR_ID_DOMAIN) && |ANCHOR_ID_DOMAIN| == 51
  {
    hide IsAscii;
    ScopesAreAscii();
    AsciiAppend("decentralized-root-of-trust/", "ml-dsa-65/anchor-id/v1\0");
    assert ANCHOR_ID_DOMAIN == "decentralized-root-of-trust/" + "ml-dsa-65/anchor-id/v1\0";
  }

  lemma ScopesAreAscii()
    ensures IsAscii("decentralized-root-of-trust/")
    ensures IsAscii("ml-dsa-65/status-list/v2\0") && IsAscii("ml-dsa-65/anchor-id/v1\0")
  {
  }

  /**
   The statement, place by place: 53 characters, the algorithm's tag, the anchor's
   identifier, the version, the offset of the list, and each entry at its own 32 bytes.
   */
  lemma StatementLayout(id: Bytes, list: seq<Bytes>, version: u32)
    requires |id| == ANCHOR_ID_BYTES && AllOfSize(list, ENTRY_BYTES)
    ensures var m := StatementPreimage(id, list, version);
      && |m| == 110 + ENTRY_BYTES * |list|
      && Statement.TextAt(m, 0, "decentralized-root-of-trust/ml-dsa-65/status-list/v2\0") && m[53] == 2
      && StandsAt(m, 54, id) && NumberAt(m, 102, 4, version) && NumberAt(m, 106, 4, 57)
      && forall i | 0 <= i < |list| :: StandsAt(m, 110 + i * ENTRY_BYTES, list[i])
  {
    StatementDomainIsAscii();
    Statement.ContextIs(STATEMENT_DOMAIN);
    hide Statement.Context, Le, IsAscii, Flatten, NumberAt, Statement.TextAt, StandsAt,
         StatementPreimage;
    StatementBytes(id, list, version);
    var c, v, n, entries := Statement.Context(STATEMENT_DOMAIN), Le(version, 4), Le(57, 4), Flatten(list);
    var tag: Bytes := [ALGORITHM_TAG];
    var m, head := StatementPreimage(id, list, version), c + tag + id + v + n;
    FlattenLength(list, ENTRY_BYTES);
    RegroupStatement(c, tag, id, v, n, entries);
    Statement.PlacedText(STATEMENT_DOMAIN, tag + (id + (v + n)) + entries);
    Placed(c + tag, id, v + n + entries);
    PlacedNumber(c + tag + id, version, 4, n + entries);
    PlacedNumber(c + tag + id + v, 57, 4, entries);
    forall i | 0 <= i < |list|
      ensures StandsAt(m, 110 + i * ENTRY_BYTES, list[i])
    {
      Statement.EntryPlaced(head, list, i);
    }
  }

  lemma RegroupStatement(c: Bytes, tag: Bytes, id: Bytes, v: Bytes, n: Bytes, entries: Bytes)
    ensures var m := c + (tag + (id + (v + n)) + entries);
      && m == c + tag + id + (v + n + entries) && m == c + tag + id + v + (n + entries)
      && m == c + tag + id + v + n + entries
      && (|tag| == 1 ==> m[|c|] == tag[0])
  {
  }

  /** One statement is about one anchor identifier, version and list. */
  lemma StatementInjective(id: Bytes, id': Bytes, list: seq<Bytes>, list': seq<Bytes>, version: u32, version': u32)
    requires |id| == |id'| == ANCHOR_ID_BYTES && AllOfSize(list, ENTRY_BYTES) && AllOfSize(list', ENTRY_BYTES)
    requires StatementPreimage(id, list, version) == StatementPreimage(id', list', version')
    ensures id == id' && list == list' && version == version'
  {
    hide Le, Flatten, Statement.Context, StatementPreimage;
    var d, v, v' := Statement.Context(STATEMENT_DOMAIN), Le(version, 4), Le(version', 4);
    var head, head' := id + (v + Le(57, 4)), id' + (v' + Le(57, 4));
    StatementBytes(id, list, version);
    StatementBytes(id', list', version');
    Statement.SameFront(d, [ALGORITHM_TAG] + head + Flatten(list), d, [ALGORITHM_TAG] + head' + Flatten(list'));
    Statement.SameFront([ALGORITHM_TAG] + head, Flatten(list), [ALGORITHM_TAG] + head', Flatten(list'));
    Statement.SameFront([ALGORITHM_TAG], head, [ALGORITHM_TAG], head');
    Statement.SameFront(id, v + Le(57, 4), id', v' + Le(57, 4));
    Statement.SameFront(v, Le(57, 4), v', Le(57, 4));
    Pow256Values();
    Statement.LeInjective(version, version', 4);
    Statement.FlattenInjective(list, list', ENTRY_BYTES);
  }

  // --------------------------------------------------------------------- the anchor

  datatype Committee = Committee(members: seq<Bytes>, threshold: nat, anchorId: Bytes)

  datatype AnchorError =
    | WireTooLong | WireNotSsz | BadKey | NoMembers | TooManyMembers | DuplicateMembers
    | ThresholdOutOfRange | NonCanonicalWire

  /** members: List[Bytes1952], threshold: uint64 */
  const COMMITTEE_SCHEMA: seq<Field> := [Variable, Fixed(8)]

  function CommitteeFields(members: seq<Bytes>, threshold: nat): (fields: seq<Bytes>)
    ensures Fits(COMMITTEE_SCHEMA, fields)
  {
    [Flatten(members), Le(threshold, 8)]
  }

  function WireBytes(members: seq<Bytes>, threshold: nat): Bytes {
    Encode(COMMITTEE_SCHEMA, CommitteeFields(members, threshold))
  }

  function AnchorIdPreimage(bytes: Bytes): Bytes {
    Statement.Context(ANCHOR_ID_DOMAIN) + bytes
  }

  /** What an anchor's identifier is the digest of: 51 characters, then the anchor's bytes. */
  lemma AnchorIdLayout(bytes: Bytes)
    ensures var m := AnchorIdPreimage(bytes);
      && |m| == 51 + |bytes|
      && Statement.TextAt(m, 0, "decentralized-root-of-trust/ml-dsa-65/anchor-id/v1\0")
      && StandsAt(m, 51, bytes)
  {
    AnchorDomainIsAscii();
    Statement.ContextIs(ANCHOR_ID_DOMAIN);
    hide Statement.Context, IsAscii, Statement.TextAt, StandsAt;
    var c := Statement.Context(ANCHOR_ID_DOMAIN);
    Statement.PlacedText(ANCHOR_ID_DOMAIN, bytes);
    Placed(c, bytes, []);
    assert c + bytes + [] == c + bytes;
  }

  /** `validate_members`, then `validate_threshold`. */
  function AnchorFault(members: seq<Bytes>, threshold: nat): Option<AnchorError> {
    if members == [] then Some(NoMembers)
    else if |members| > MAX_COMMITTEE_SIZE then Some(TooManyMembers)
    else if !Distinct(members) then Some(DuplicateMembers)
    else if !(1 <= threshold <= |members|) then Some(ThresholdOutOfRange)
    else None
  }

  /** The validation with its scan, as the code runs it. */
  method Validate(members: seq<Bytes>, threshold: nat) returns (fault: Option<AnchorError>)
    ensures fault == AnchorFault(members, threshold)
  {
    if members == [] {
      return Some(NoMembers);
    }
    if |members| > MAX_COMMITTEE_SIZE {
      return Some(TooManyMembers);
    }
    var duplicate := Anchor.HasDuplicateMembers(members);
    if duplicate {
      return Some(DuplicateMembers);
    }
    return if 1 <= threshold <= |members| then None else Some(ThresholdOutOfRange);
  }

  function NewCommittee(x: Crypto, members: seq<Bytes>, threshold: nat): Result<Committee, AnchorError> {
    var fault := AnchorFault(members, threshold);
    if fault.Some? then Err(fault.value)
    else Ok(Committee(members, threshold, Digest(x.sha3, AnchorIdPreimage(WireBytes(members, threshold)))))
  }

  function CommitteeFromBytes(x: Crypto, b: Bytes): Result<Committee, AnchorError> {
    if |b| > MAX_COMMITTEE_WIRE_BYTES then Err(WireTooLong) else
    var fields := Deserialize(COMMITTEE_SCHEMA, b);
    if fields.None? then Err(WireNotSsz) else
    var members := Chunks(fields.value[0], PUBLIC_KEY_BYTES);
    if members.None? then Err(WireNotSsz)
    else if exists i | 0 <= i < |members.value| :: !x.keyOk(members.value[i]) then Err(BadKey)
    else
      var threshold := FromLe(fields.value[1]);
      var fault := AnchorFault(members.value, threshold);
      if fault.Some? then Err(fault.value)
      else if WireBytes(members.value, threshold) != b then Err(NonCanonicalWire)
      else Ok(Committee(members.value, threshold, Digest(x.sha3, AnchorIdPreimage(b))))
  }

  function CommitteeToBytes(c: Committee): Bytes {
    WireBytes(c.members, c.threshold)
  }

  predicate KeysSized(x: Crypto, members: seq<Bytes>) {
    AllOfSize(members, PUBLIC_KEY_BYTES) && forall i | 0 <= i < |members| :: x.keyOk(members[i])
  }

  /** What holds of every committee either constructor returns. */
  predicate Coherent(x: Crypto, c: Committee) {
    && KeysSized(x, c.members) && Distinct(c.members)
    && 1 <= c.threshold <= |c.members| <= MAX_COMMITTEE_SIZE
    && c.anchorId == Digest(x.sha3, AnchorIdPreimage(CommitteeToBytes(c)))
  }

  /** Every committee within the bounds is accepted, as it is, and no other. */
  lemma NewIsCoherent(x: Crypto, members: seq<Bytes>, threshold: nat)
    requires KeysSized(x, members)
    ensures var r := NewCommittee(x, members, threshold);
      && (r.Ok? <==> 1 <= threshold <= |members| <= MAX_COMMITTEE_SIZE && Distinct(members))
      && (r.Ok? ==> Coherent(x, r.value) && r.value.members == members && r.value.threshold == threshold)
  {
  }

  /** The bytes of an anchor: an offset, the threshold, then key after key. */
  lemma CommitteeWireForm(members: seq<Bytes>, threshold: nat)
    ensures WireBytes(members, threshold) == Le(12, 4) + Le(threshold, 8) + Flatten(members)
  {
    hide Le, Flatten, Heads, Tails;
    var flat, n := Flatten(members), Le(threshold, 8);
    assert COMMITTEE_SCHEMA[1..] == [Fixed(8)] && [flat, n][1..] == [n];
    VariableStep(COMMITTEE_SCHEMA, [flat, n], 12);
    OneNumber(n, 12 + |flat|);
    assert flat + [] == flat;
  }

  lemma OneNumber(number: Bytes, at: nat)
    requires |number| == 8
    ensures HeadSize(COMMITTEE_SCHEMA) == 12
    ensures Tails([Fixed(8)], [number]) == [] && Heads([Fixed(8)], [number], at) == number
  {
    assert COMMITTEE_SCHEMA[1..] == [Fixed(8)];
    FixedStep([Fixed(8)], [number], at);
    assert number + [] == number;
  }

  lemma CommitteeWireLength(members: seq<Bytes>, threshold: nat)
    requires AllOfSize(members, PUBLIC_KEY_BYTES)
    ensures |WireBytes(members, threshold)| == 12 + PUBLIC_KEY_BYTES * |members|
  {
    hide Flatten, Le;
    var entries, t := Flatten(members), Le(threshold, 8);
    SizeStep(COMMITTEE_SCHEMA, [entries, t]);
    assert COMMITTEE_SCHEMA[1..] == [Fixed(8)] && [entries, t][1..] == [t];
    SizeStep([Fixed(8)], [t]);
    FlattenLength(members, PUBLIC_KEY_BYTES);
  }

  lemma CommitteeDecodeOfEncode(x: Crypto, c: Committee)
    requires Coherent(x, c)
    ensures CommitteeFromBytes(x, CommitteeToBytes(c)) == Ok(c)
  {
    hide Deserialize, Encode, Chunks, Flatten;
    var fields := CommitteeFields(c.members, c.threshold);
    CommitteeWireLength(c.members, c.threshold);
    DeserializeOfSerialize(COMMITTEE_SCHEMA, fields);
    ChunksOfFlatten(c.members, PUBLIC_KEY_BYTES);
    Pow256Values();
    FromLeOfLe(c.threshold, 8);
    assert fields[1] == Le(c.threshold, 8);
  }

  /** Every accepted byte string is the one form of a coherent anchor; no re-encoding is refused. */
  lemma CommitteeDecodedIsCoherent(x: Crypto, b: Bytes)
    ensures var r := CommitteeFromBytes(x, b);
      && r != Err(NonCanonicalWire)
      && (r.Ok? ==> CommitteeToBytes(r.value) == b && Coherent(x, r.value))
  {
    hide Deserialize, Encode, Chunks, Flatten, Le, FromLe;
    var fields := Deserialize(COMMITTEE_SCHEMA, b);
    if fields.Some? && Chunks(fields.value[0], PUBLIC_KEY_BYTES).Some? {
      EncodeOfDeserialize(COMMITTEE_SCHEMA, b);
      FlattenOfChunks(fields.value[0], PUBLIC_KEY_BYTES);
      LeOfFromLe(fields.value[1]);
      assert CommitteeFields(Chunks(fields.value[0], PUBLIC_KEY_BYTES).value, FromLe(fields.value[1])) == fields.value;
    }
  }

  /** A byte string is an anchor exactly when it is the bytes of a coherent committee. */
  lemma CommitteeAcceptsExactly(x: Crypto, b: Bytes, c: Committee)
    ensures CommitteeFromBytes(x, b) == Ok(c) <==> Coherent(x, c) && CommitteeToBytes(c) == b
  {
    hide CommitteeFromBytes, Coherent, CommitteeToBytes;
    CommitteeDecodedIsCoherent(x, b);
    if Coherent(x, c) {
      CommitteeDecodeOfEncode(x, c);
    }
  }

  /** `statement_for`: the 64 bytes a member signs. */
  function StatementFor(x: Crypto, c: Committee, list: seq<Bytes>, version: u32): Bytes {
    if |c.anchorId| == ANCHOR_ID_BYTES then Digest(x.shake, StatementPreimage(c.anchorId, list, version)) else []
  }

  /** One signed statement is about one committee, list and version, short of a collision. */
  lemma StatementBinds(x: Crypto, c: Committee, c': Committee,
                       list: seq<Bytes>, list': seq<Bytes>, version: u32, version': u32)
    requires Coherent(x, c) && Coherent(x, c') && AllOfSize(list, ENTRY_BYTES) && AllOfSize(list', ENTRY_BYTES)
    requires StatementFor(x, c, list, version) == StatementFor(x, c', list', version')
    ensures |c.anchorId| == |c'.anchorId| == ANCHOR_ID_BYTES
    ensures
      || (c == c' && list == list' && version == version')
      || Collision(x.sha3, AnchorIdPreimage(CommitteeToBytes(c)), AnchorIdPreimage(CommitteeToBytes(c')))
      || Collision(x.shake,
           StatementPreimage(c.anchorId, list, version), StatementPreimage(c'.anchorId, list', version'))
  {
    hide StatementPreimage, WireBytes, Statement.Context;
    if StatementPreimage(c.anchorId, list, version) == StatementPreimage(c'.anchorId, list', version') {
      StatementInjective(c.anchorId, c'.anchorId, list, list', version, version');
      var d := Statement.Context(ANCHOR_ID_DOMAIN);
      var b, b' := CommitteeToBytes(c), CommitteeToBytes(c');
      if d + b == d + b' {
        Statement.SameFront(d, b, d, b');
        CommitteeDecodeOfEncode(x, c);
        CommitteeDecodeOfEncode(x, c');
      }
    }
  }

  // -------------------------------------------------------------------- verification

  predicate Signs(x: Crypto, c: Committee, statement: Bytes, pair: Pair<Bytes>) {
    pair.index < |c.members| && x.verify(c.members[pair.index], statement, pair.signature)
  }

  predicate AllSign(x: Crypto, c: Committee, statement: Bytes, pairs: SignedPairs) {
    AllGood(p => Signs(x, c, statement, p), pairs)
  }

  /** `RawVerifier::verify_status_list` */
  predicate Verify(x: Crypto, c: Committee, r: Record) {
    if |r.signers| != |c.members| || Population(r.signers) < c.threshold || Population(r.signers) != |r.signatures|
    then false
    else AllSign(x, c, StatementFor(x, c, r.list, r.version), r.Evidence())
  }

  /**
   A record built from pairs in any order verifies, and still does after its round trip,
   exactly when it fits the committee, reaches the threshold, and every signature is good.
   */
  lemma VerifyExactly(x: Crypto, c: Committee, list: seq<Bytes>, version: u32, n: nat, pairs: SignedPairs)
    requires AllOfSize(list, ENTRY_BYTES)
    requires forall p <- pairs :: |p.signature| == SIGNATURE_BYTES && x.signatureOk(p.signature)
    requires Constructed(list, version, n, pairs).Ok?
    ensures var r := Constructed(list, version, n, pairs).value;
      && ToBytes(r).Some? && FromBytes(x, ToBytes(r).value).Ok?
      && (Verify(x, c, FromBytes(x, ToBytes(r).value).value) <==>
            && n == |c.members| && |pairs| >= c.threshold
            && AllSign(x, c, StatementFor(x, c, list, version), pairs))
  {
    var r, sorted := Constructed(list, version, n, pairs).value, SortByIndex(pairs);
    PairsRoundTrip(n, pairs);
    SortedPermutation(pairs);
    assert r.Evidence() == sorted && Population(r.signers) == |sorted| == |pairs| == |r.signatures|;
    hide SortByIndex, SignerIndices, Signs, AllGood, StatementFor, Indices, Signatures, Marked, PairsFault, Sorted,
         ToBytes, FromBytes;
    ConstructedDecodes(x, list, version, n, pairs);
    var statement := StatementFor(x, c, list, version);
    AllGoodPermute(p => Signs(x, c, statement, p), sorted, pairs);
  }
}
