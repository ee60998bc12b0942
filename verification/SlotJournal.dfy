/**
 The two-record journal of a slot counter: the checksummed record, the file
 that holds two of them, and the recovery of the current one.
 */
module SlotJournal {
  import opened Prelude
  import opened ByteStrings
  import opened Text

  const RECORD_SIZE: nat := 128
  const JOURNAL_SLOT_SIZE: nat := 4096
  const JOURNAL_SIZE: nat := 8192
  const CHECKSUM_OFFSET: nat := 96
  /** "DROTSL03" */
  const JOURNAL_MAGIC: Bytes := [0x44, 0x52, 0x4F, 0x54, 0x53, 0x4C, 0x30, 0x33]

  type Tag = b: Bytes | |b| == 32 witness Zeros(32)

  datatype JournalRecord = JournalRecord(generation: u64, nextFree: u64, keyTag: Tag)

  /** The bytes a record's checksum covers. */
  function RecordBody(r: JournalRecord): (b: Bytes)
    ensures |b| == CHECKSUM_OFFSET
  {
    JOURNAL_MAGIC + Le(r.generation, 8) + Le(r.nextFree, 8) + r.keyTag + Zeros(40)
  }

  function EncodeRecord(h: Hash32, r: JournalRecord): (b: Bytes)
    ensures |b| == RECORD_SIZE
  {
    RecordBody(r) + Digest(h, RecordBody(r))
  }

  /** Fills a zeroed record buffer field by field. */
  method FillRecord(h: Hash32, r: JournalRecord) returns (bytes: array<byte>)
    ensures fresh(bytes) && bytes[..] == EncodeRecord(h, r)
  {
    bytes := new byte[RECORD_SIZE](_ => 0);
    CopyInto(bytes, 0, JOURNAL_MAGIC);
    CopyInto(bytes, 8, Le(r.generation, 8));
    CopyInto(bytes, 16, Le(r.nextFree, 8));
    CopyInto(bytes, 24, r.keyTag);
    assert bytes[..CHECKSUM_OFFSET] == RecordBody(r);
    CopyInto(bytes, CHECKSUM_OFFSET, Digest(h, bytes[..CHECKSUM_OFFSET]));
    assert bytes[..] == bytes[..CHECKSUM_OFFSET] + bytes[CHECKSUM_OFFSET..];
  }

  datatype DecodeError = WrongLength | WrongMagic | NonZeroReserved | ChecksumMismatch | WrongSlot

  function DecodeRecord(h: Hash32, b: Bytes, slot: nat): Result<Option<JournalRecord>, DecodeError> {
    if |b| != RECORD_SIZE then Err(WrongLength)
    else if b == Zeros(RECORD_SIZE) then Ok(None)
    else if b[..8] != JOURNAL_MAGIC then Err(WrongMagic)
    else if b[56..CHECKSUM_OFFSET] != Zeros(40) then Err(NonZeroReserved)
    else if b[CHECKSUM_OFFSET..] != Digest(h, b[..CHECKSUM_OFFSET]) then Err(ChecksumMismatch)
    else
      Pow256Values();
      var generation: u64 := FromLe(b[8..16]);
      if generation % 2 != slot then Err(WrongSlot)
      else Ok(Some(JournalRecord(generation, FromLe(b[16..24]), b[24..56])))
  }

  /** The record codec is a bijection: exactly one image, in exactly one region. */
  lemma RecordCodec(h: Hash32, b: Bytes, slot: nat, r: JournalRecord)
    ensures DecodeRecord(h, b, slot) == Ok(Some(r))
       <==> b == EncodeRecord(h, r) && slot == r.generation % 2
  {
    if b == EncodeRecord(h, r) && slot == r.generation % 2 {
      DecodeOfEncode(h, r);
    }
    if DecodeRecord(h, b, slot) == Ok(Some(r)) {
      EncodeOfDecode(h, b, slot, r);
    }
  }

  lemma DecodeOfEncode(h: Hash32, r: JournalRecord)
    ensures DecodeRecord(h, EncodeRecord(h, r), r.generation % 2) == Ok(Some(r))
  {
    Pow256Values();
    FromLeOfLe(r.generation, 8);
    FromLeOfLe(r.nextFree, 8);
    EncodedFields(h, r);
  }

  lemma EncodeOfDecode(h: Hash32, b: Bytes, slot: nat, r: JournalRecord)
    requires DecodeRecord(h, b, slot) == Ok(Some(r))
    ensures b == EncodeRecord(h, r) && slot == r.generation % 2
  {
    LeOfFromLe(b[8..16]);
    LeOfFromLe(b[16..24]);
    FieldsOf(b);
  }

  lemma FieldsOf(b: Bytes)
    requires |b| == RECORD_SIZE
    ensures b[..96] == b[..8] + b[8..16] + b[16..24] + b[24..56] + b[56..96]
    ensures b == b[..96] + b[96..]
  {
  }

  /** A record, place by place: "DROTSL03", two numbers, the key's tag, 40 zeros, and the digest of all that. */
  lemma RecordLayout(h: Hash32, r: JournalRecord)
    ensures var e := EncodeRecord(h, r);
      && StandsAt(e, 0, [0x44, 0x52, 0x4F, 0x54, 0x53, 0x4C, 0x30, 0x33])
      && NumberAt(e, 8, 8, r.generation) && NumberAt(e, 16, 8, r.nextFree)
      && StandsAt(e, 24, r.keyTag) && StandsAt(e, 56, Zeros(40)) && StandsAt(e, 96, Digest(h, e[..96]))
  {
    hide Le;
    EncodedFields(h, r);
    var e := EncodeRecord(h, r);
    PlacedNumber(e[..8], r.generation, 8, e[16..]);
    assert e == e[..8] + Le(r.generation, 8) + e[16..];
    PlacedNumber(e[..16], r.nextFree, 8, e[24..]);
    assert e == e[..16] + Le(r.nextFree, 8) + e[24..];
  }

  lemma EncodedFields(h: Hash32, r: JournalRecord)
    ensures var e := EncodeRecord(h, r);
      && e[0] == 0x44 && e[..8] == JOURNAL_MAGIC && e[8..16] == Le(r.generation, 8)
      && e[16..24] == Le(r.nextFree, 8) && e[24..56] == r.keyTag && e[56..96] == Zeros(40)
      && e[..96] == RecordBody(r) && e[96..] == Digest(h, RecordBody(r))
  {
  }

  /** The record region of a journal image, and the image with it overwritten. */
  function Region(data: Bytes, slot: nat): (b: Bytes)
    requires |data| == JOURNAL_SIZE && slot < 2
    ensures |b| == RECORD_SIZE
  {
    data[slot * JOURNAL_SLOT_SIZE..slot * JOURNAL_SLOT_SIZE + RECORD_SIZE]
  }

  lemma RegionOfSplice(data: Bytes, slot: nat, rec: Bytes, other: nat)
    requires |data| == JOURNAL_SIZE && slot < 2 && other < 2 && |rec| == RECORD_SIZE
    ensures var r := Splice(data, slot * JOURNAL_SLOT_SIZE, rec);
      Region(r, other) == if other == slot then rec else Region(data, other)
  {
  }

  datatype RecoverError =
    | WrongJournalLength | NoValidRecord | ForeignKey | NotOneGenerationApart | OutsideWindow

  /** The record a region contributes to recovery, if any. */
  function Contribution(h: Hash32, data: Bytes, slot: nat): (r: Option<JournalRecord>)
    requires |data| == JOURNAL_SIZE && slot < 2
    ensures r.Some? ==> r.value.generation % 2 == slot
  {
    var d := DecodeRecord(h, Region(data, slot), slot);
    if d.Ok? then d.value else None
  }

  /** `newer` is what recovery may follow `older` with. */
  predicate Follows(older: JournalRecord, newer: JournalRecord) {
    newer.generation == older.generation + 1 && newer.nextFree > older.nextFree
  }

  /** The choice between the two regions' records. */
  function Elect(a: Option<JournalRecord>, b: Option<JournalRecord>, tag: Tag, end: u32)
    : Result<JournalRecord, RecoverError>
  {
    if a.None? && b.None? then Err(NoValidRecord)
    else if (a.Some? && a.value.keyTag != tag) || (b.Some? && b.value.keyTag != tag) then Err(ForeignKey)
    else if a.Some? && b.Some? && !Follows(a.value, b.value) && !Follows(b.value, a.value) then
      Err(NotOneGenerationApart)
    else
      var current := if b.None? || (a.Some? && a.value.generation > b.value.generation) then a.value else b.value;
      if current.nextFree > end + 1 then Err(OutsideWindow) else Ok(current)
  }

  function Recover(h: Hash32, data: Bytes, tag: Tag, end: u32): Result<JournalRecord, RecoverError> {
    if |data| != JOURNAL_SIZE then Err(WrongJournalLength)
    else Elect(Contribution(h, data, 0), Contribution(h, data, 1), tag, end)
  }

  function Listed(c: Option<JournalRecord>): seq<JournalRecord> {
    if c.Some? then [c.value] else []
  }

  /** The loop of `recover_journal`: the valid records, region 0 first. */
  method GatherRecords(h: Hash32, bytes: Bytes) returns (records: seq<JournalRecord>)
    requires |bytes| == JOURNAL_SIZE
    ensures records == Listed(Contribution(h, bytes, 0)) + Listed(Contribution(h, bytes, 1))
  {
    records := [];
    for slot := 0 to 2
      invariant records == ListedBelow(h, bytes, slot)
    {
      records := records + Listed(Contribution(h, bytes, slot));
    }
  }

  function ListedBelow(h: Hash32, data: Bytes, n: nat): seq<JournalRecord>
    requires |data| == JOURNAL_SIZE && n <= 2
  {
    if n == 0 then [] else ListedBelow(h, data, n - 1) + Listed(Contribution(h, data, n - 1))
  }

  /** The rest of `recover_journal`: order the valid records and check the pair. */
  method ElectRecord(listed: seq<JournalRecord>, tag: Tag, end: u32,
                     ghost a: Option<JournalRecord>, ghost b: Option<JournalRecord>)
    returns (r: Result<JournalRecord, RecoverError>)
    requires listed == Listed(a) + Listed(b)
    requires a.Some? ==> a.value.generation % 2 == 0
    requires b.Some? ==> b.value.generation % 2 == 1
    ensures r == Elect(a, b, tag, end)
  {
    var records := listed;
    if records == [] {
      return Err(NoValidRecord);
    }
    if exists i | 0 <= i < |records| :: records[i].keyTag != tag {
      return Err(ForeignKey);
    }
    if |records| == 2 {
      if records[0].generation > records[1].generation {
        records := [records[1], records[0]];
      }
      var older, newer := records[0], records[1];
      var successor: u64 := older.generation + 1;   // the parities differ, so this cannot overflow
      if newer.generation != successor || newer.nextFree <= older.nextFree {
        return Err(NotOneGenerationApart);
      }
    }
    var current := records[|records| - 1];
    var onePastEnd: u64 := end + 1;
    if current.nextFree > onePastEnd {
      return Err(OutsideWindow);
    }
    return Ok(current);
  }

  method RecoverJournal(h: Hash32, bytes: Bytes, tag: Tag, end: u32)
    returns (r: Result<JournalRecord, RecoverError>)
    ensures r == Recover(h, bytes, tag, end)
  {
    if |bytes| != JOURNAL_SIZE {
      return Err(WrongJournalLength);
    }
    var records := GatherRecords(h, bytes);
    r := ElectRecord(records, tag, end, Contribution(h, bytes, 0), Contribution(h, bytes, 1));
  }

  /** Whatever 8192 bytes recovery is handed, the older generation has a successor. */
  lemma RecoveryNeverOverflows(h: Hash32, data: Bytes)
    requires |data| == JOURNAL_SIZE
    requires Contribution(h, data, 0).Some? && Contribution(h, data, 1).Some?
    ensures var a, b := Contribution(h, data, 0).value, Contribution(h, data, 1).value;
      a.generation != b.generation
      && (if a.generation < b.generation then a else b).generation < U64_MAX
  {
  }

  /** What an accepted journal looks like, byte for byte, and what it recovers to. */
  lemma RecoverExactly(h: Hash32, data: Bytes, tag: Tag, end: u32, r: JournalRecord)
    requires |data| == JOURNAL_SIZE
    ensures Recover(h, data, tag, end) == Ok(r) <==>
      && r.keyTag == tag && r.nextFree <= end + 1
      && Region(data, r.generation % 2) == EncodeRecord(h, r)
      && (var other := Contribution(h, data, 1 - r.generation % 2);
          other.Some? ==> other.value.keyTag == tag && Follows(other.value, r))
  {
    ContributionExactly(h, data, 0, r);
    ContributionExactly(h, data, 1, r);
    ElectExactly(Contribution(h, data, 0), Contribution(h, data, 1), tag, end, r);
  }

  /** And why another image of that length is refused; the window is looked at last. */
  lemma RefusedExactly(h: Hash32, data: Bytes, tag: Tag, end: u32)
    requires |data| == JOURNAL_SIZE
    ensures var r, a, b := Recover(h, data, tag, end), Contribution(h, data, 0), Contribution(h, data, 1);
      && (r == Err(NoValidRecord) <==> a.None? && b.None?)
      && (r == Err(ForeignKey) <==> (a.Some? && a.value.keyTag != tag) || (b.Some? && b.value.keyTag != tag))
      && (r == Err(NotOneGenerationApart) <==>
            && a.Some? && b.Some? && a.value.keyTag == b.value.keyTag == tag
            && !Follows(a.value, b.value) && !Follows(b.value, a.value))
      && (r == Err(OutsideWindow) <==> exists c: JournalRecord :: c.nextFree > end + 1 && IsCurrent(a, b, tag, c))
  {
    hide Contribution;
    var a, b := Contribution(h, data, 0), Contribution(h, data, 1);
    if Recover(h, data, tag, end) == Err(OutsideWindow) {
      var c := if b.None? || (a.Some? && a.value.generation > b.value.generation) then a.value else b.value;
      assert IsCurrent(a, b, tag, c);
    }
  }

  /** `c` is one region's record, of this key, and the other region holds the one before it or none. */
  predicate IsCurrent(a: Option<JournalRecord>, b: Option<JournalRecord>, tag: Tag, c: JournalRecord) {
    && c.keyTag == tag && (a == Some(c) || b == Some(c))
    && (a.Some? && a.value != c ==> a.value.keyTag == tag && Follows(a.value, c))
    && (b.Some? && b.value != c ==> b.value.keyTag == tag && Follows(b.value, c))
  }

  lemma ContributionExactly(h: Hash32, data: Bytes, slot: nat, r: JournalRecord)
    requires |data| == JOURNAL_SIZE && slot < 2
    ensures Contribution(h, data, slot) == Some(r)
       <==> Region(data, slot) == EncodeRecord(h, r) && slot == r.generation % 2
  {
    RecordCodec(h, Region(data, slot), slot, r);
  }

  lemma ElectExactly(a: Option<JournalRecord>, b: Option<JournalRecord>, tag: Tag, end: u32, r: JournalRecord)
    requires a.Some? ==> a.value.generation % 2 == 0
    requires b.Some? ==> b.value.generation % 2 == 1
    ensures Elect(a, b, tag, end) == Ok(r) <==>
      && r.keyTag == tag && r.nextFree <= end + 1
      && (if r.generation % 2 == 0 then a else b) == Some(r)
      && (var other := if r.generation % 2 == 0 then b else a;
          other.Some? ==> other.value.keyTag == tag && Follows(other.value, r))
  {
  }

  datatype LegacyError = EmptyFile | MissingCounter | LegacyForeignKey | Unparseable | TrailingData

  /** `parse_legacy`: the frontier of a textual predecessor, and whether it is unversioned. */
  function ParseLegacy(s: string, tag: Tag): Result<(u64, bool), LegacyError> {
    var unversioned := !("v2 " <= s);
    var words := Words(if unversioned then s else s[3..]);
    if |words| == 0 then Err(EmptyFile)
    else if |words| == 1 then Err(MissingCounter)
    else if words[0] != Hex(tag) then Err(LegacyForeignKey)
    else if ParseUnsigned(words[1], U64_MAX).None? then Err(Unparseable)
    else if |words| > 2 then Err(TrailingData)
    else
      var next := ParseUnsigned(words[1], U64_MAX).value;
      Ok((next, unversioned))
  }

  /** What a predecessor printed, with or without the version mark. */
  function LegacyText(tag: Tag, next: u64, versioned: bool): string {
    (if versioned then "v2 " else "") + (Hex(tag) + " " + Decimal(next) + "\n")
  }

  lemma LegacyTextWords(tag: Tag, next: u64, versioned: bool)
    ensures var text := LegacyText(tag, next, versioned);
      && ("v2 " <= text <==> versioned)
      && Words(if versioned then text[3..] else text) == [Hex(tag), Decimal(next)]
  {
    var line := Hex(tag) + " " + Decimal(next) + "\n";
    HexIsWord(tag);
    ParseOfDecimal(next, U64_MAX);
    WordsOfLine(Hex(tag), Decimal(next));
    assert ("v2 " + line)[3..] == line;
    assert [] + line == line;
    assert line[0] == Hex(tag)[0] && Hex(tag)[0] in Hex(tag);
    assert "v2 "[0] == 'v';
  }

  /**
   A text is accepted exactly if, after the version mark it may begin with, it is two
   words: this key's tag in hexadecimal, and a 64-bit number, which is its frontier.
   */
  lemma ParseLegacyExactly(s: string, tag: Tag, next: u64, unversioned: bool)
    ensures ParseLegacy(s, tag) == Ok((next, unversioned)) <==>
      && (unversioned <==> !("v2 " <= s))
      && exists number ::
           && Words(if "v2 " <= s then s[3..] else s) == [Hex(tag), number]
           && ParseUnsigned(number, U64_MAX) == Some(next)
  {
    hide Words, ParseUnsigned, Hex;
    var words := Words(if "v2 " <= s then s[3..] else s);
    if |words| == 2 {
      assert words == [words[0], words[1]];
    }
  }

  /** Both textual forms a predecessor printed are read back with their frontier. */
  lemma ParseOfPrintedLegacy(tag: Tag, next: u64, versioned: bool)
    ensures ParseLegacy(LegacyText(tag, next, versioned), tag) == Ok((next, !versioned))
  {
    LegacyTextWords(tag, next, versioned);
    ParseOfDecimal(next, U64_MAX);
  }

  /** What was printed for another key is refused as foreign, whatever its number. */
  lemma ForeignLegacyRefused(mine: Tag, other: Tag, next: u64, versioned: bool)
    requires mine != other
    ensures ParseLegacy(LegacyText(other, next, versioned), mine) == Err(LegacyForeignKey)
  {
    LegacyTextWords(other, next, versioned);
    if Hex(mine) == Hex(other) {
      HexInjective(mine, other);
    }
  }
}
