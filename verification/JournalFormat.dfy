/** The journal's byte formats, plugged into the step system of SlotProtocol. */
module JournalFormat {
  import opened Prelude
  import opened ByteStrings
  import opened Text
  import opened Storage
  import opened SlotJournal
  import opened SlotProtocol
  import opened SlotSafety

  /** The foreign parts of the format: the checksum's hash and UTF-8 decoding. */
  datatype Codec = Codec(hash: Hash32, utf8: Utf8)

  function ReadRecord(h: Hash32, b: Bytes, slot: nat): Option<JournalRecord> {
    var d := DecodeRecord(h, b, slot);
    if d.Ok? then d.value else None
  }

  function ReadLegacy(utf8: Utf8, tag: Tag, b: Bytes): Option<(u64, bool)> {
    var text := utf8(b);
    if text.None? then None else
    var parsed := ParseLegacy(text.value, tag);
    if parsed.Ok? then Some(parsed.value) else None
  }

  /** The protocol over the journal's own byte formats. */
  function JournalEnv(h: Hash32, utf8: Utf8, tag: Tag, cap: u32): Env {
    Env(
      (b: Bytes, slot: nat) => ReadRecord(h, b, slot),
      (r: JournalRecord) => EncodeRecord(h, r),
      (b: Bytes) => ReadLegacy(utf8, tag, b),
      tag, cap)
  }

  lemma JournalIsLawful(h: Hash32, utf8: Utf8, tag: Tag, cap: u32)
    ensures Lawful(JournalEnv(h, utf8, tag, cap))
  {
    var env := JournalEnv(h, utf8, tag, cap);
    forall r
      ensures |env.write(r)| == RECORD_SIZE && env.read(env.write(r), r.generation % 2) == Some(r)
    {
      RecordCodec(h, EncodeRecord(h, r), r.generation % 2, r);
    }
    forall b, slot | env.read(b, slot).Some?
      ensures var r := env.read(b, slot).value; b == env.write(r) && slot == r.generation % 2
    {
      RecordCodec(h, b, slot, env.read(b, slot).value);
    }
  }

  datatype StateError =
    | AlreadyExists | CannotRead | NotUtf8 | GenerationExhausted | AmbiguousLegacy | LegacyOutsideWindow
    | Journal(recover: RecoverError)
    | Legacy(legacy: LegacyError)

  /** Why `open` refuses a state file's bytes, if it does. */
  function Refusal(h: Hash32, utf8: Utf8, tag: Tag, f: FileImage, end: u32): Option<StateError> {
    if f.Absent? then Some(CannotRead)
    else if |f.data| == JOURNAL_SIZE then
      var r := Recover(h, f.data, tag, end);
      if r.Err? then Some(Journal(r.error)) else None
    else
      var text := utf8(f.data);
      if text.None? then Some(NotUtf8) else
      var parsed := ParseLegacy(text.value, tag);
      if parsed.Err? then Some(Legacy(parsed.error)) else
      var (next, unversioned) := parsed.value;
      if next > end + 1 then Some(LegacyOutsideWindow)
      else if unversioned && end == U32_MAX && next == U32_MAX then Some(AmbiguousLegacy)
      else None
  }

  /** The step system's decision, in terms of the bytes. */
  predicate DecidesAs(env: Env, codec: Codec, f: FileImage, end: u32) {
    var Codec(h, utf8) := codec;
    var d := OpenDecision(env, f, end);
    && (d.Refuse? <==> Refusal(h, utf8, env.tag, f, end).Some?)
    && (!d.Refuse? && |f.data| == JOURNAL_SIZE ==> d == Resume(Recover(h, f.data, env.tag, end).value))
    && (!d.Refuse? && |f.data| != JOURNAL_SIZE ==> d == Migrate(ParseLegacy(utf8(f.data).value, env.tag).value.0))
  }

  predicate WritesAs(env: Env, codec: Codec, r: JournalRecord) {
    env.write(r) == EncodeRecord(codec.hash, r)
  }

  /** An environment whose records and decisions are the journal's. */
  ghost predicate IsJournal(env: Env, codec: Codec) {
    && (forall r :: WritesAs(env, codec, r))
    && (forall f, end :: DecidesAs(env, codec, f, end))
  }

  lemma JournalEnvIsJournal(h: Hash32, utf8: Utf8, tag: Tag, cap: u32)
    ensures IsJournal(JournalEnv(h, utf8, tag, cap), Codec(h, utf8))
  {
    forall f, end
      ensures DecidesAs(JournalEnv(h, utf8, tag, cap), Codec(h, utf8), f, end)
    {
      if f.Present? && |f.data| == JOURNAL_SIZE {
        RecoveredIsRecover(h, utf8, tag, cap, f.data, end);
      }
    }
  }

  /** A text that names this key and a frontier inside the window, and is not the ambiguous one. */
  ghost predicate Predecessor(codec: Codec, tag: Tag, data: Bytes, end: u32, next: u64) {
    && Says(codec, tag, data, next) && next <= end + 1
    && ("v2 " <= codec.utf8(data).value || next != U32_MAX || end != U32_MAX)
  }

  /** Exactly when a file is resumed, and when it is migrated; every other one is refused. */
  lemma OpenDecisionExactly(env: Env, codec: Codec, f: FileImage, end: u32, r: JournalRecord, next: u64)
    requires IsJournal(env, codec)
    ensures OpenDecision(env, f, end) == Resume(r) <==>
      f.Present? && |f.data| == JOURNAL_SIZE && Recover(codec.hash, f.data, env.tag, end) == Ok(r)
    ensures OpenDecision(env, f, end) == Migrate(next) <==>
      f.Present? && |f.data| != JOURNAL_SIZE && Predecessor(codec, env.tag, f.data, end, next)
  {
    hide Words, ParseUnsigned, ParseLegacy, Recover, Recovered;
    assert DecidesAs(env, codec, f, end);
    if f.Present? && codec.utf8(f.data).Some? {
      var text := codec.utf8(f.data).value;
      var parsed := ParseLegacy(text, env.tag);
      ParseLegacyExactly(text, env.tag, next, !("v2 " <= text));
      if parsed.Ok? {
        ParseLegacyExactly(text, env.tag, parsed.value.0, parsed.value.1);
      }
    }
  }

  /** Why a text of this key is refused all the same: past the window, or the one that may mean two things. */
  lemma RefusedTextExactly(codec: Codec, tag: Tag, data: Bytes, end: u32)
    requires |data| != JOURNAL_SIZE
    ensures var reason := Refusal(codec.hash, codec.utf8, tag, Present(data), end);
      && (reason == Some(NotUtf8) <==> codec.utf8(data).None?)
      && (reason == Some(LegacyOutsideWindow) <==> exists next: u64 :: next > end + 1 && Says(codec, tag, data, next))
      && (reason == Some(AmbiguousLegacy) <==>
            end == U32_MAX && Says(codec, tag, data, U32_MAX) && !("v2 " <= codec.utf8(data).value))
  {
    hide Words, ParseUnsigned, ParseLegacy;
    var text := codec.utf8(data);
    if text.Some? {
      var parsed := ParseLegacy(text.value, tag);
      if parsed.Ok? {
        ParseLegacyExactly(text.value, tag, parsed.value.0, parsed.value.1);
        assert Says(codec, tag, data, parsed.value.0);
      }
      forall next: u64 | Says(codec, tag, data, next)
        ensures parsed == Ok((next, !("v2 " <= text.value)))
      {
        ParseLegacyExactly(text.value, tag, next, !("v2 " <= text.value));
      }
    }
  }

  /** A text of two words behind an optional version mark, this key's tag and this number. */
  ghost predicate Says(codec: Codec, tag: Tag, data: Bytes, next: u64) {
    var text := codec.utf8(data);
    text.Some? && exists number ::
      && Words(if "v2 " <= text.value then text.value[3..] else text.value) == [Hex(tag), number]
      && ParseUnsigned(number, U64_MAX) == Some(next)
  }

  /** The file a predecessor of this key left. */
  predicate PrintedFor(f: FileImage, tag: Tag, next: u64, versioned: bool) {
    var text := LegacyText(tag, next, versioned);
    IsAscii(text) && f == Present(AsciiBytes(text))
  }

  /** A file printed for another key is refused for that reason alone, whatever its number. */
  lemma ForeignFileRefused(codec: Codec, tag: Tag, f: FileImage, end: u32, other: Tag, next: u64, versioned: bool)
    requires PrintedFor(f, other, next, versioned) && tag != other
    ensures Refusal(codec.hash, codec.utf8, tag, f, end) == Some(Legacy(LegacyForeignKey))
  {
    hide LegacyText, ParseLegacy;
    LegacyTextShape(other, next, versioned);
    ForeignLegacyRefused(tag, other, next, versioned);
    var utf8 := codec.utf8;
    assert utf8(f.data) == Some(LegacyText(other, next, versioned));
  }

  /** Safety at the real format: whatever the hash and the decoder, in every run. */
  lemma JournalNeverRepeats<M>(h: Hash32, utf8: Utf8, tag: Tag, cap: u32, w: World<M>, run: seq<Event<M>>)
    requires var env := JournalEnv(h, utf8, tag, cap);
      Starts(env, w) && IsRun(env, w, run) && Contracted(env, w, run)
    ensures var w' := After(JournalEnv(h, utf8, tag, cap), w, run);
      && Increasing(w'.returned)
      && (forall i, j | 0 <= i < |w'.signed| && 0 <= j < |w'.signed| ::
            w'.signed[i].slot == w'.signed[j].slot ==> i == j)
  {
    hide IsRun, After, Contracted, Starts, JournalEnv;
    JournalIsLawful(h, utf8, tag, cap);
    NoSlotTwice(JournalEnv(h, utf8, tag, cap), w, run);
  }

  /** And its one exception: from an empty path, a probe that misses the file repeats a slot. */
  lemma JournalRepeatsAfterALie<M>(h: Hash32, utf8: Utf8, tag: Tag, cap: u32) returns (w: World<M>, run: seq<Event<M>>)
    ensures var env := JournalEnv(h, utf8, tag, cap);
      && Starts(env, w) && w.disk == {Absent} && w.returned == []
      && IsRun(env, w, run) && !Distinct(After(env, w, run).returned)
  {
    hide IsRun, After, Starts, JournalEnv;
    JournalIsLawful(h, utf8, tag, cap);
    w, run := SlotTwiceReachable(JournalEnv(h, utf8, tag, cap), 0);
  }

  lemma RecoveredIsRecover(h: Hash32, utf8: Utf8, tag: Tag, cap: u32, data: Bytes, end: u32)
    requires |data| == JOURNAL_SIZE
    ensures Recovered(JournalEnv(h, utf8, tag, cap), data, end) == Recover(h, data, tag, end)
  {
    var env := JournalEnv(h, utf8, tag, cap);
    assert ReadRegion(env, data, 0) == Contribution(h, data, 0);
    assert ReadRegion(env, data, 1) == Contribution(h, data, 1);
  }

  /** Both textual predecessors stand at the frontier they were printed with. */
  lemma PrintedLegacyFrontier(h: Hash32, utf8: Utf8, tag: Tag, cap: u32, next: u64, versioned: bool)
    requires next <= cap + 1
    ensures IsAscii(LegacyText(tag, next, versioned))
    ensures var file := Present(AsciiBytes(LegacyText(tag, next, versioned)));
      Frontier(JournalEnv(h, utf8, tag, cap), file) == Some(next)
  {
    hide LegacyText;
    LegacyTextShape(tag, next, versioned);
    ParseOfPrintedLegacy(tag, next, versioned);
    var text := LegacyText(tag, next, versioned);
    assert ReadLegacy(utf8, tag, AsciiBytes(text)) == Some(ParseLegacy(text, tag).value);
  }

  lemma LegacyTextShape(tag: Tag, next: u64, versioned: bool)
    ensures IsAscii(LegacyText(tag, next, versioned)) && |LegacyText(tag, next, versioned)| < 100
  {
    var line := Hex(tag) + " " + Decimal(next) + "\n";
    assert forall i | 0 <= i < |Hex(tag)| :: Hex(tag)[i] in Hex(tag);
    assert forall i | 0 <= i < |Decimal(next)| :: Decimal(next)[i] in Decimal(next);
    assert forall i | 0 <= i < |line| :: line[i] == if i < 64 then Hex(tag)[i] else if i == 64 then ' '
      else if i < |line| - 1 then Decimal(next)[i - 65] else '\n';
    Pow10Of20();
    DecimalLength(next, 20);
  }

  lemma Pow10Of20()
    ensures Pow10(20) > U64_MAX
  {
    assert Pow10(5) == 100_000;
    assert Pow10(10) == 10 * (10 * (10 * (10 * (10 * Pow10(5)))));
    assert Pow10(15) == 10 * (10 * (10 * (10 * (10 * Pow10(10)))));
    assert Pow10(20) == 10 * (10 * (10 * (10 * (10 * Pow10(15)))));
  }

  function Pow10(k: nat): nat {
    if k == 0 then 1 else 10 * Pow10(k - 1)
  }

  lemma {:induction false} DecimalLength(n: nat, k: nat)
    requires n < Pow10(k) && k > 0
    ensures |Decimal(n)| <= k
  {
    if n >= 10 {
      DecimalLength(n / 10, k - 1);
    }
  }
}
