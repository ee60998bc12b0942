/**
 The two published records: raw signatures with a signer bitmap, and a list with
 an aggregate proof. Construction, and the canonical wire form of each.
 */
module StatusList {
  import opened Prelude
  import opened ByteStrings
  import opened Ssz
  import opened Anchor
  import opened Statement
  import opened Signers

  const SIGNATURE_BYTES: nat := 1208

  type SignedPairs = seq<Pair<Bytes>>

  datatype RecordError =
    | BadSsz | BadTag(reason: TagError) | CommitteeTooLarge | BadPairs(fault: PairsError) | CountMismatch

  datatype RawRecord = RawRecord(
    alg: Algorithm,
    list: seq<Bytes>,
    version: u32,
    signers: seq<bool>,
    signatures: seq<Bytes>)
  {
    /** The signing members and their signatures, as a verifier zips them. */
    function Evidence(): SignedPairs {
      Zip(SignerIndices(signers), signatures)
    }

    /** What the source's types and constructors guarantee. */
    predicate WellFormed() {
      && AllOfSize(list, ENTRY_BYTES) && AllOfSize(signatures, SIGNATURE_BYTES)
      && |signers| <= MAX_COMMITTEE_SIZE && Population(signers) == |signatures|
    }
  }

  /** `StatusList::new`, stated over its sorted input. */
  function Constructed(alg: Algorithm, list: seq<Bytes>, version: u32, n: nat, pairs: SignedPairs)
    : Result<RawRecord, RecordError>
  {
    var fault := PairsFault(n, pairs);
    if fault.Some? then Err(BadPairs(fault.value))
    else if n > MAX_COMMITTEE_SIZE then Err(CommitteeTooLarge)
    else
      var sorted := SortByIndex(pairs);
      Ok(RawRecord(alg, list, version, Marked(n, Indices(sorted)), Signatures(sorted)))
  }

  method New(alg: Algorithm, list: seq<Bytes>, version: u32, n: nat, pairs: SignedPairs)
    returns (r: Result<RawRecord, RecordError>)
    ensures r == Constructed(alg, list, version, n, pairs)
  {
    var sorted := SortByIndex(pairs);
    if exists i | 0 <= i < |sorted| - 1 :: sorted[i].index == sorted[i + 1].index {
      return Err(BadPairs(DuplicateSigner));
    }
    if sorted != [] && sorted[|sorted| - 1].index >= n {
      return Err(BadPairs(SignerOutOfRange));
    }
    if n > MAX_COMMITTEE_SIZE {
      return Err(CommitteeTooLarge);
    }
    PairsRoundTrip(n, pairs);
    PairsInRange(n, sorted);
    var signers := SetSigners(n, sorted);
    return Ok(RawRecord(alg, list, version, signers, Signatures(sorted)));
  }

  /**
   A record is built exactly from distinct members of a committee no larger than the
   ceiling; its bitmap and signatures then zip back to the sorted input.
   */
  lemma ConstructedExactly(alg: Algorithm, list: seq<Bytes>, version: u32, n: nat, pairs: SignedPairs)
    requires AllOfSize(list, ENTRY_BYTES) && forall p <- pairs :: |p.signature| == SIGNATURE_BYTES
    ensures var r := Constructed(alg, list, version, n, pairs);
      && (r.Ok? <==> Distinct(Indices(pairs)) && (forall x <- Indices(pairs) :: x < n) && n <= MAX_COMMITTEE_SIZE)
      && (r.Ok? ==>
            && r.value.WellFormed() && |r.value.signers| == n
            && r.value.alg == alg && r.value.list == list && r.value.version == version
            && r.value.Evidence() == SortByIndex(pairs)
            && multiset(r.value.Evidence()) == multiset(pairs))
  {
    PairsFaultExactly(n, pairs);
    if Constructed(alg, list, version, n, pairs).Ok? {
      PairsRoundTrip(n, pairs);
      SortedPermutation(pairs);
      SortedSizes(pairs);
    }
  }

  lemma SortedSizes(pairs: SignedPairs)
    requires forall p <- pairs :: |p.signature| == SIGNATURE_BYTES
    ensures AllOfSize(Signatures(SortByIndex(pairs)), SIGNATURE_BYTES)
  {
    SortedPermutation(pairs);
    hide SortByIndex;
    var sorted := SortByIndex(pairs);
    forall i | 0 <= i < |sorted|
      ensures |sorted[i].signature| == SIGNATURE_BYTES
    {
      assert sorted[i] in multiset(sorted) && sorted[i] in multiset(pairs);
      assert sorted[i] in pairs;
    }
  }

  /** One set of signers has one record, whatever order its signatures arrived in. */
  lemma ArrivalOrderIrrelevant(alg: Algorithm, list: seq<Bytes>, version: u32, n: nat, p: SignedPairs, q: SignedPairs)
    requires multiset(p) == multiset(q)
    ensures Constructed(alg, list, version, n, p) == Constructed(alg, list, version, n, q)
  {
    OrderIrrelevant(n, p, q);
  }

  // ------------------------------------------------------------------ raw wire form

  /**
   alg: uint8, status_list: List[Bytes32], version: uint32,
   signers: Bitlist[2048], signatures: List[Signature]
   */
  const RAW_SCHEMA: seq<Field> := [Fixed(1), Variable, Fixed(4), Variable, Variable]

  function RawFields(r: RawRecord): (fields: seq<Bytes>)
    ensures Fits(RAW_SCHEMA, fields)
  {
    [[AlgorithmTag(r.alg)], Flatten(r.list), Le(r.version, 4), EncodeBits(r.signers), Flatten(r.signatures)]
  }

  function RawToBytes(r: RawRecord): Option<Bytes> {
    Serialize(RAW_SCHEMA, RawFields(r))
  }

  function RawFromBytes(b: Bytes): Result<RawRecord, RecordError> {
    var fields := Deserialize(RAW_SCHEMA, b);
    if fields.None? then Err(BadSsz) else
    var list := Chunks(fields.value[1], ENTRY_BYTES);
    var signers := DecodeBitlist(fields.value[3], MAX_COMMITTEE_SIZE);
    var signatures := Chunks(fields.value[4], SIGNATURE_BYTES);
    if list.None? || signers.None? || signatures.None? then Err(BadSsz) else
    var alg := AlgorithmFromTag(fields.value[0][0]);
    if alg.Err? then Err(BadTag(alg.error))
    else if Population(signers.value) != |signatures.value| then Err(CountMismatch)
    else
      Pow256Values();
      var version: u32 := FromLe(fields.value[2]);
      Ok(RawRecord(alg.value, list.value, version, signers.value, signatures.value))
  }

  /**
   A constructible record is read back from its bytes exactly when the last offset fits
   32 bits: neither the standard's bound on the whole length nor any other is needed.
   */
  lemma RawDecodesExactly(r: RawRecord)
    requires r.WellFormed()
    ensures RawFromBytes(Encode(RAW_SCHEMA, RawFields(r))) == Ok(r)
       <==> 17 + ENTRY_BYTES * |r.list| + |r.signers| / 8 + 1 <= U32_MAX
  {
    hide Deserialize, Encode, Chunks, Flatten, DecodeBits, EncodeBits, SignerIndices, OffsetsFit, HeadSize;
    var fields := RawFields(r);
    RecordShape(fields[0], fields[1], fields[2], fields[3], fields[4]);
    FlattenLength(r.list, ENTRY_BYTES);
    DecodesExactly(RAW_SCHEMA, fields);
    if Deserialize(RAW_SCHEMA, Encode(RAW_SCHEMA, fields)) == Some(fields) {
      RawOfFields(r);
    }
    if RawFromBytes(Encode(RAW_SCHEMA, fields)) == Ok(r) {
      RawFieldsOfDecoded(Encode(RAW_SCHEMA, fields));
    }
  }

  lemma RawOfFields(r: RawRecord)
    requires r.WellFormed() && Deserialize(RAW_SCHEMA, Encode(RAW_SCHEMA, RawFields(r))) == Some(RawFields(r))
    ensures RawFromBytes(Encode(RAW_SCHEMA, RawFields(r))) == Ok(r)
  {
    hide Deserialize, Encode, Chunks, Flatten, DecodeBits, EncodeBits, SignerIndices;
    var fields := RawFields(r);
    assert r.alg == WotsXmss && fields[0] == [1] && fields[1] == Flatten(r.list) && fields[2] == Le(r.version, 4);
    ChunksOfFlatten(r.list, ENTRY_BYTES);
    ChunksOfFlatten(r.signatures, SIGNATURE_BYTES);
    DecodeOfEncodeBits(r.signers);
    Pow256Values();
    FromLeOfLe(r.version, 4);
  }

  /** In particular every record that has an encoding by the standard. */
  lemma RawDecodeOfEncode(r: RawRecord)
    requires r.WellFormed() && RawToBytes(r).Some?
    ensures RawFromBytes(RawToBytes(r).value) == Ok(r)
  {
    hide Encode;
    DeserializeOfSerialize(RAW_SCHEMA, RawFields(r));
    RawOfFields(r);
  }

  /** A constructible record has an encoding by the standard exactly when its size fits 32 bits. */
  lemma RawEncodesExactly(r: RawRecord)
    requires r.WellFormed()
    ensures RawToBytes(r).Some? <==>
      17 + ENTRY_BYTES * |r.list| + |r.signers| / 8 + 1 + SIGNATURE_BYTES * |r.signatures| <= U32_MAX
  {
    hide Encode, EncodeBits, Flatten, SignerIndices, HeadSize, OffsetsFit;
    var fields := RawFields(r);
    FlattenLength(r.list, ENTRY_BYTES);
    FlattenLength(r.signatures, SIGNATURE_BYTES);
    RecordShape(fields[0], fields[1], fields[2], fields[3], fields[4]);
  }

  /**
   No second spelling exists although none is looked for: an accepted byte string is
   the encoding of the record it decodes to, and that record is one `new` builds.
   */
  lemma RawEncodeOfDecode(b: Bytes)
    requires RawFromBytes(b).Ok?
    ensures var r := RawFromBytes(b).value;
      && Encode(RAW_SCHEMA, RawFields(r)) == b
      && RawToBytes(r) == (if |b| <= U32_MAX then Some(b) else None)
      && r.WellFormed()
      && (forall i <- SignerIndices(r.signers) :: i < |r.signers|)
      && Constructed(r.alg, r.list, r.version, |r.signers|, r.Evidence()) == Ok(r)
  {
    var r := RawFromBytes(b).value;
    RawFieldsOfDecoded(b);
    EncodeOfDeserialize(RAW_SCHEMA, b);
    IndicesInRange(r.signers);
    forall i | i in SignerIndices(r.signers)
      ensures i < |r.signers|
    {
    }
    EvidenceSorted(r.signers, r.signatures);
  }

  lemma RawFieldsOfDecoded(b: Bytes)
    requires RawFromBytes(b).Ok?
    ensures Some(RawFields(RawFromBytes(b).value)) == Deserialize(RAW_SCHEMA, b)
  {
    hide Deserialize, Chunks, Flatten, DecodeBits, EncodeBits, SignerIndices, Le, FromLe;
    var fields, r := Deserialize(RAW_SCHEMA, b).value, RawFromBytes(b).value;
    FlattenOfChunks(fields[1], ENTRY_BYTES);
    FlattenOfChunks(fields[4], SIGNATURE_BYTES);
    EncodeOfDecodeBits(fields[3]);
    LeOfFromLe(fields[2]);
    assert fields[0] == [fields[0][0]];
    assert RawFields(r) == fields;
  }

  /** Which byte strings decode, and to what. */
  lemma RawAcceptsExactly(b: Bytes, r: RawRecord)
    ensures RawFromBytes(b) == Ok(r) <==>
      && r.WellFormed() && Encode(RAW_SCHEMA, RawFields(r)) == b
      && 17 + ENTRY_BYTES * |r.list| + |r.signers| / 8 + 1 <= U32_MAX
  {
    hide RawFromBytes, Encode, SignerIndices;
    if RawFromBytes(b) == Ok(r) {
      RawEncodeOfDecode(b);
    }
    if r.WellFormed() {
      RawDecodesExactly(r);
    }
  }

  /** The bytes of a raw record, field by field. */
  lemma RawWireForm(r: RawRecord)
    requires r.WellFormed()
    ensures var bits := 17 + ENTRY_BYTES * |r.list|;
      var evidence := bits + |r.signers| / 8 + 1;
      Encode(RAW_SCHEMA, RawFields(r))
        == [1] + (Le(17, 4) + (Le(r.version, 4) + (Le(bits, 4) + Le(evidence, 4))))
             + (Flatten(r.list) + (EncodeBits(r.signers) + Flatten(r.signatures)))
  {
    hide Le, Flatten, EncodeBits, Encode, SignerIndices;
    var fields := RawFields(r);
    FlattenLength(r.list, ENTRY_BYTES);
    RecordWireForm(fields[0], fields[1], fields[2], fields[3], fields[4]);
  }

  // ---------------------------------------------------------------- SNARK wire form

  datatype SnarkRecord = SnarkRecord(alg: Algorithm, list: seq<Bytes>, version: u32, proof: Bytes)

  /** alg: uint8, status_list: List[Bytes32], version: uint32, zk_proof: List[uint8] */
  const SNARK_SCHEMA: seq<Field> := [Fixed(1), Variable, Fixed(4), Variable]

  function SnarkFields(r: SnarkRecord): (fields: seq<Bytes>)
    ensures Fits(SNARK_SCHEMA, fields)
  {
    [[AlgorithmTag(r.alg)], Flatten(r.list), Le(r.version, 4), r.proof]
  }

  function SnarkToBytes(r: SnarkRecord): Option<Bytes> {
    Serialize(SNARK_SCHEMA, SnarkFields(r))
  }

  function SnarkFromBytes(b: Bytes): Result<SnarkRecord, RecordError> {
    var fields := Deserialize(SNARK_SCHEMA, b);
    if fields.None? then Err(BadSsz) else
    var list := Chunks(fields.value[1], ENTRY_BYTES);
    if list.None? then Err(BadSsz) else
    var alg := AlgorithmFromTag(fields.value[0][0]);
    if alg.Err? then Err(BadTag(alg.error)) else
    Pow256Values();
    var version: u32 := FromLe(fields.value[2]);
    Ok(SnarkRecord(alg.value, list.value, version, fields.value[3]))
  }

  /** The same for the SNARK form, whose proof may have any length at all. */
  lemma SnarkDecodesExactly(r: SnarkRecord)
    requires AllOfSize(r.list, ENTRY_BYTES)
    ensures SnarkFromBytes(Encode(SNARK_SCHEMA, SnarkFields(r))) == Ok(r) <==> 13 + ENTRY_BYTES * |r.list| <= U32_MAX
  {
    hide Deserialize, Encode, Chunks, Flatten, OffsetsFit, HeadSize;
    var fields := SnarkFields(r);
    ShortRecordShape(fields[0], fields[1], fields[2], fields[3]);
    FlattenLength(r.list, ENTRY_BYTES);
    DecodesExactly(SNARK_SCHEMA, fields);
    if Deserialize(SNARK_SCHEMA, Encode(SNARK_SCHEMA, fields)) == Some(fields) {
      SnarkOfFields(r);
    }
    if SnarkFromBytes(Encode(SNARK_SCHEMA, fields)) == Ok(r) {
      SnarkFieldsOfDecoded(Encode(SNARK_SCHEMA, fields));
    }
  }

  lemma SnarkOfFields(r: SnarkRecord)
    requires AllOfSize(r.list, ENTRY_BYTES)
    requires Deserialize(SNARK_SCHEMA, Encode(SNARK_SCHEMA, SnarkFields(r))) == Some(SnarkFields(r))
    ensures SnarkFromBytes(Encode(SNARK_SCHEMA, SnarkFields(r))) == Ok(r)
  {
    hide Deserialize, Encode, Chunks, Flatten;
    var fields := SnarkFields(r);
    assert r.alg == WotsXmss && fields[0] == [1] && fields[1] == Flatten(r.list) && fields[2] == Le(r.version, 4);
    ChunksOfFlatten(r.list, ENTRY_BYTES);
    Pow256Values();
    FromLeOfLe(r.version, 4);
  }

  lemma SnarkDecodeOfEncode(r: SnarkRecord)
    requires AllOfSize(r.list, ENTRY_BYTES) && SnarkToBytes(r).Some?
    ensures SnarkFromBytes(SnarkToBytes(r).value) == Ok(r)
  {
    hide Encode;
    DeserializeOfSerialize(SNARK_SCHEMA, SnarkFields(r));
    SnarkOfFields(r);
  }

  lemma SnarkEncodesExactly(r: SnarkRecord)
    requires AllOfSize(r.list, ENTRY_BYTES)
    ensures SnarkToBytes(r).Some? <==> 13 + ENTRY_BYTES * |r.list| + |r.proof| <= U32_MAX
  {
    hide Encode, Flatten, HeadSize, OffsetsFit;
    var fields := SnarkFields(r);
    FlattenLength(r.list, ENTRY_BYTES);
    ShortRecordShape(fields[0], fields[1], fields[2], fields[3]);
  }

  /** An input beyond the standard's 32-bit total that decodes: an empty list and a long proof. */
  lemma OverlongInputDecodes() returns (b: Bytes)
    ensures |b| > U32_MAX && SnarkFromBytes(b).Ok?
    ensures SnarkToBytes(SnarkFromBytes(b).value).None?
  {
    hide Deserialize, Encode, Chunks, Flatten;
    var r := SnarkRecord(WotsXmss, [], 0, Zeros(U32_MAX));
    var fields := SnarkFields(r);
    b := Encode(SNARK_SCHEMA, fields);
    ShortRecordShape(fields[0], fields[1], fields[2], fields[3]);
    SnarkDecodesExactly(r);
  }

  lemma SnarkEncodeOfDecode(b: Bytes)
    requires SnarkFromBytes(b).Ok?
    ensures var r := SnarkFromBytes(b).value;
      && AllOfSize(r.list, ENTRY_BYTES)
      && Encode(SNARK_SCHEMA, SnarkFields(r)) == b
      && SnarkToBytes(r) == (if |b| <= U32_MAX then Some(b) else None)
  {
    SnarkFieldsOfDecoded(b);
    EncodeOfDeserialize(SNARK_SCHEMA, b);
  }

  /** Which byte strings decode, and to what. */
  lemma SnarkAcceptsExactly(b: Bytes, r: SnarkRecord)
    ensures SnarkFromBytes(b) == Ok(r) <==>
      && AllOfSize(r.list, ENTRY_BYTES) && Encode(SNARK_SCHEMA, SnarkFields(r)) == b
      && 13 + ENTRY_BYTES * |r.list| <= U32_MAX
  {
    hide SnarkFromBytes, Encode;
    if SnarkFromBytes(b) == Ok(r) {
      SnarkEncodeOfDecode(b);
    }
    if AllOfSize(r.list, ENTRY_BYTES) {
      SnarkDecodesExactly(r);
    }
  }

  /** The bytes of a SNARK record, field by field. */
  lemma SnarkWireForm(r: SnarkRecord)
    requires AllOfSize(r.list, ENTRY_BYTES)
    ensures Encode(SNARK_SCHEMA, SnarkFields(r))
         == [1] + (Le(13, 4) + (Le(r.version, 4) + Le(13 + ENTRY_BYTES * |r.list|, 4))) + (Flatten(r.list) + r.proof)
  {
    hide Le, Flatten, Encode;
    var fields := SnarkFields(r);
    FlattenLength(r.list, ENTRY_BYTES);
    ShortRecordWireForm(fields[0], fields[1], fields[2], fields[3]);
  }

  lemma SnarkFieldsOfDecoded(b: Bytes)
    requires SnarkFromBytes(b).Ok?
    ensures Some(SnarkFields(SnarkFromBytes(b).value)) == Deserialize(SNARK_SCHEMA, b)
  {
    hide Deserialize, Chunks, Flatten, Le, FromLe;
    var fields, r := Deserialize(SNARK_SCHEMA, b).value, SnarkFromBytes(b).value;
    FlattenOfChunks(fields[1], ENTRY_BYTES);
    LeOfFromLe(fields[2]);
    assert fields[0] == [fields[0][0]];
    assert SnarkFields(r) == fields;
  }
}
