/**
 The slot counter and the signer node as objects. Every method drives the host
 through steps of SlotProtocol, so whatever the objects do is one of its runs.
 How the host's I/O turns out is a parameter of each call.
 */
module SlotCounter {
  import opened Prelude
  import opened ByteStrings
  import opened Storage
  import opened SlotJournal
  import opened SlotProtocol
  import opened SlotSafety
  import opened JournalFormat

  /** How one record write meets the file; `torn` is a partial image it may leave. */
  datatype PersistFate = PersistFate(seekOk: bool, writeOk: bool, syncOk: bool, torn: Bytes) {
    predicate Succeeds() { seekOk && writeOk && syncOk }
  }

  datatype SlotError =
    | Exhausted(nextOrRequested: u64, end: u32)
    | AlreadySpent(requested: u32, next: u64)
    | Unusable(reason: StateError)
    | Busy
    | Io

  /** The operating system under the state path of one key, with its whole history. */
  class Host {
    const codec: Codec
    const env: Env
    var world: World<Bytes>
    ghost const genesis: World<Bytes>
    ghost var log: seq<Event<Bytes>>

    ghost predicate Valid()
      reads this
    {
      && IsJournal(env, codec) && Init(env, genesis)
      && IsRun(env, genesis, log) && world == After(env, genesis, log)
    }

    /** Every `create` so far met its contract: no probe lied harmfully, no start was past the window. */
    ghost predicate Sound()
      reads this
    {
      Valid() && Contracted(env, genesis, log)
    }

    constructor (codec: Codec, keyTag: Tag, cap: u32, world: World<Bytes>)
      requires Starts(JournalEnv(codec.hash, codec.utf8, keyTag, cap), world)
      ensures Sound() && this.world == world && log == []
      ensures this.codec == codec && env.tag == keyTag && env.cap == cap
    {
      this.codec, this.env := codec, JournalEnv(codec.hash, codec.utf8, keyTag, cap);
      this.world, genesis, log := world, world, [];
      new;
      JournalEnvIsJournal(codec.hash, codec.utf8, keyTag, cap);
      JournalIsLawful(codec.hash, codec.utf8, keyTag, cap);
    }

    /** Every state of a sound host satisfies the invariant of the step system. */
    lemma Holds()
      requires Sound()
      ensures Inv(env, world)
    {
      InitIsInv(env, genesis);
      RunKeepsInv(env, genesis, log);
    }

    method Do(e: Event<Bytes>)
      requires Valid() && Enabled(env, world, e)
      modifies this
      ensures Valid() && world == Apply(env, old(world), e) && log == old(log) + [e]
      ensures old(Sound()) && Contract(env, old(world), e) ==> Sound()
    {
      world := Apply(env, world, e);
      log := log + [e];
      assert log[..|log| - 1] == old(log);
    }

    /** The calls of a reservation, as far as the calling process can see. */
    method Begin(p: nat, slot: u32)
      requires Valid() && Enabled(env, world, BeginReserve(p, slot))
      modifies this
      ensures Valid() && Logged(old(log), BeginReserve(p, slot)) && Quiet(old(world))
      ensures old(Sound()) ==> Sound()
      ensures world.procs == old(world.procs)[p := Reserving(old(world.procs[p].c), slot)]
    {
      Do(BeginReserve(p, slot));
    }

    method Seek(p: nat, ok: bool)
      requires Valid() && p in world.procs && world.procs[p].Reserving?
      modifies this
      ensures Valid() && old(log) <= log && Quiet(old(world))
      ensures old(Sound()) ==> Sound()
      ensures world.procs == if ok then old(world.procs) else old(world.procs)[p := Holding(old(world.procs[p].c))]
    {
      if !ok {
        Do(SeekFails(p));
      }
    }

    method WriteAll(p: nat, rec: Bytes, torn: Bytes, ok: bool)
      requires Valid() && Enabled(env, world, WriteRecord(p, rec, torn, ok))
      modifies this
      ensures Valid() && Logged(old(log), WriteRecord(p, rec, torn, ok)) && Quiet(old(world))
      ensures old(Sound()) ==> Sound()
      ensures world.procs == old(world.procs)[p :=
        if ok then Written(old(world.procs[p].c), old(world.procs[p].slot)) else Holding(old(world.procs[p].c))]
    {
      Do(WriteRecord(p, rec, torn, ok));
    }

    method Sync(p: nat, ok: bool)
      requires Valid() && Enabled(env, world, SyncData(p, ok))
      modifies this
      ensures Valid() && Logged(old(log), SyncData(p, ok)) && Quiet(old(world))
      ensures old(Sound()) ==> Sound()
      ensures world.procs == old(world.procs)[p :=
        if ok then Synced(Advanced(old(world.procs[p].c), old(world.procs[p].slot)), old(world.procs[p].slot))
        else Holding(old(world.procs[p].c))]
    {
      Do(SyncData(p, ok));
    }

    /** Seek, write, sync: the file calls of one reservation, up to the first failure. */
    method Overwrite(p: nat, slot: u32, rec: Bytes, fate: PersistFate) returns (ok: bool)
      requires Valid() && Enabled(env, world, BeginReserve(p, slot)) && Torn(env, fate.torn, world.procs[p].c)
      requires rec == RecordBytes(env, Advanced(world.procs[p].c, slot))
      modifies this
      ensures Valid() && old(log) <= log && Quiet(old(world)) && ok == fate.Succeeds()
      ensures old(Sound()) ==> Sound()
      ensures world.procs == old(world.procs)[p :=
        if ok then Synced(Advanced(old(world.procs[p].c), slot), slot) else Holding(old(world.procs[p].c))]
    {
      hide IsRun, After, Contracted, Init, Apply;
      Begin(p, slot);
      Seek(p, fate.seekOk);
      if !fate.seekOk {
        return false;
      }
      WriteAll(p, rec, fate.torn, fate.writeOk);
      if !fate.writeOk {
        return false;
      }
      Sync(p, fate.syncOk);
      return fate.syncOk;
    }

    method Return(p: nat)
      requires Valid() && p in world.procs && world.procs[p].Synced?
      modifies this
      ensures Valid() && Logged(old(log), ReturnSlot(p)) && world.signed == old(world.signed)
      ensures old(Sound()) ==> Sound()
      ensures world.returned == old(world.returned) + [old(world.procs[p].slot)]
      ensures world.procs == old(world.procs)[p := Reserved(old(world.procs[p].c), old(world.procs[p].slot))]
    {
      Do(ReturnSlot(p));
    }

    ghost predicate Logged(past: seq<Event<Bytes>>, e: Event<Bytes>)
      reads this
    {
      log == past + [e]
    }

    /** Nothing was handed out or signed. */
    predicate Quiet(past: World<Bytes>)
      reads this
    {
      world.returned == past.returned && world.signed == past.signed && world.holder == past.holder
    }

    /** `encode_record` for this host's journal. */
    method EncodedRecord(generation: u64, nextFree: u64) returns (bytes: Bytes)
      requires Valid()
      ensures bytes == env.write(JournalRecord(generation, nextFree, env.tag)) && |bytes| == RECORD_SIZE
    {
      var record := JournalRecord(generation, nextFree, env.tag);
      var buffer := FillRecord(codec.hash, record);
      assert WritesAs(env, codec, record);
      return buffer[..];
    }

    /** The reading half of `open`: recover a journal, or parse a textual predecessor. */
    method Decide(seen: FileImage, end: u32) returns (r: Result<OpenOutcome, StateError>)
      requires Valid()
      ensures match OpenDecision(env, seen, end)
              case Refuse => r.Err? && Refusal(codec.hash, codec.utf8, env.tag, seen, end) == Some(r.error)
              case decision => r == Ok(decision)
    {
      assert DecidesAs(env, codec, seen, end);
      if seen.Absent? {
        return Err(CannotRead);
      }
      if |seen.data| == JOURNAL_SIZE {
        var current := RecoverJournal(codec.hash, seen.data, env.tag, end);
        return if current.Err? then Err(Journal(current.error)) else Ok(Resume(current.value));
      }
      var text := codec.utf8(seen.data);
      if text.None? {
        return Err(NotUtf8);
      }
      var parsed := ParseLegacy(text.value, env.tag);
      if parsed.Err? {
        return Err(Legacy(parsed.error));
      }
      var (next, unversioned) := parsed.value;
      if next > end + 1 {
        return Err(LegacyOutsideWindow);
      }
      if unversioned && end == U32_MAX && next == U32_MAX {
        return Err(AmbiguousLegacy);
      }
      return Ok(Migrate(next));
    }
  }

  /** `install_journal`: build the whole image, write and sync it aside, rename, sync the directory. */
  method InstallJournal(host: Host, p: nat, next: u64, fate: ReplaceFate) returns (ok: bool)
    requires host.Valid() && fate.Possible()
    requires p in host.world.procs && host.world.procs[p].Installing? && host.world.procs[p].next == next
    modifies host
    ensures host.Valid() && ok == fate.Succeeds() && old(host.log) <= host.log
    ensures old(host.Sound()) ==> host.Sound()
    ensures host.world.returned == old(host.world.returned) && host.world.signed == old(host.world.signed)
    ensures ok ==>
      && host.world.disk == {Present(InitialImage(host.env, next))}
      && host.world.procs == old(host.world.procs)[p := Holding(Counter(0, next, old(host.world.procs[p].end)))]
    ensures !ok ==> p !in host.world.procs
  {
    hide IsRun, After, Contracted, Init;
    var record := host.EncodedRecord(0, next);
    var image := new byte[JOURNAL_SIZE](_ => 0);
    assert image[..] == Zeros(JOURNAL_SIZE);
    CopyInto(image, 0, record);
    assert image[..] == InitialImage(host.env, next);
    if !fate.tmpOk {
      host.Do(Release(p));
      return false;
    }
    host.Do(TmpSync(p));
    host.Do(Rename(p, image[..], fate.renameHappened, fate.renameOk));
    if !fate.renameOk {
      return false;
    }
    if !fate.dirSyncOk {
      host.Do(Release(p));
      return false;
    }
    host.Do(DirSync(p));
    return true;
  }

  class AtomicSlotCounter {
    const host: Host
    const pid: nat
    const keyTag: Tag
    const end: u32
    var generation: u64
    var next: u64

    function State(): Counter
      reads this
    {
      Counter(generation, next, end)
    }

    /** The object's fields are the process's state in the host. */
    ghost predicate Valid()
      reads this, host
    {
      && host.Valid() && keyTag == host.env.tag
      && pid in host.world.procs
      && (host.world.procs[pid].Holding? || host.world.procs[pid].Reserved?)
      && host.world.procs[pid].c == State()
    }

    constructor (host: Host, pid: nat, generation: u64, next: u64, end: u32)
      requires host.Valid() && pid in host.world.procs
      requires host.world.procs[pid] == Holding(Counter(generation, next, end))
      ensures Valid() && this.host == host && this.pid == pid && State() == Counter(generation, next, end)
    {
      this.host, this.pid, this.keyTag, this.end := host, pid, host.env.tag, end;
      this.generation, this.next := generation, next;
    }

    /** The start is at most one past the window, and a file the probe misses is spent only below it. */
    static predicate Harmless(env: Env, w: World<Bytes>, start: u32, seen: FileImage, probe: bool) {
      start <= env.cap + 1 && (seen.Present? && !probe ==> Below(w.returned, start))
    }

    /**
     Initialises the counter of a brand-new key; refuses what the existence probe reports.
     The probe may fail to see a file, and the start is taken as it comes.
     */
    static method Create(host: Host, pid: nat, start: u32, end: u32, lockOk: bool, seen: FileImage, probe: bool,
                         fate: ReplaceFate)
      returns (r: Result<AtomicSlotCounter, SlotError>)
      requires host.Valid() && pid !in host.world.procs && fate.Possible() && end <= host.env.cap
      requires seen in host.world.disk && (probe ==> seen.Present?)
      modifies host
      ensures host.Valid() && old(host.log) <= host.log
      ensures old(host.Sound()) && Harmless(host.env, old(host.world), start, seen, probe) ==> host.Sound()
      ensures host.world.returned == old(host.world.returned) && host.world.signed == old(host.world.signed)
      ensures !lockOk ==> r == Err(Io) && host.world == old(host.world)
      ensures lockOk && old(host.world.holder).Some? ==> r == Err(Busy) && host.world == old(host.world)
      ensures lockOk && old(host.world.holder).None? ==>
        && (probe ==> r == Err(Unusable(AlreadyExists)) && host.world.disk == {seen})
        && (!probe && !fate.Succeeds() ==> r == Err(Io))
        && (!probe && fate.Succeeds() ==> r.Ok?)
      ensures r.Err? && old(host.world.holder).None? ==> pid !in host.world.procs
      ensures r.Ok? ==>
        && fresh(r.value) && r.value.Valid() && r.value.host == host
        && r.value.State() == Counter(0, start, end)
        && host.world.disk == {Present(InitialImage(host.env, start))}
    {
      hide IsRun, After, Contracted, Init, InitialImage;
      if !lockOk {
        return Err(Io);
      }
      host.Do(LockForCreate(pid, start, end));
      if pid !in host.world.procs {
        return Err(Busy);
      }
      host.Do(ProbeExists(pid, seen, probe));
      if probe {
        return Err(Unusable(AlreadyExists));
      }
      var ok := InstallJournal(host, pid, start, fate);
      if !ok {
        return Err(Io);
      }
      var counter := new AtomicSlotCounter(host, pid, 0, start, end);
      return Ok(counter);
    }

    /** Resumes an existing counter, migrating a textual predecessor first. */
    static method Open(host: Host, pid: nat, end: u32, lockOk: bool, seen: FileImage, readOk: bool, fate: ReplaceFate)
      returns (r: Result<AtomicSlotCounter, SlotError>)
      requires host.Valid() && pid !in host.world.procs && fate.Possible()
      requires end <= host.env.cap && seen in host.world.disk
      modifies host
      ensures host.Valid() && old(host.log) <= host.log
      ensures old(host.Sound()) ==> host.Sound()
      ensures host.world.returned == old(host.world.returned) && host.world.signed == old(host.world.signed)
      ensures !lockOk ==> r == Err(Io) && host.world == old(host.world)
      ensures lockOk && old(host.world.holder).Some? ==> r == Err(Busy) && host.world == old(host.world)
      ensures lockOk && old(host.world.holder).None? && !readOk ==> r == Err(Unusable(CannotRead))
      ensures lockOk && old(host.world.holder).None? && readOk ==>
        match OpenDecision(host.env, seen, end)
        case Refuse =>
          && host.world.disk == {seen} && r.Err? && r.error.Unusable?
          && Refusal(host.codec.hash, host.codec.utf8, host.env.tag, seen, end) == Some(r.error.reason)
        case Resume(record) =>
          r.Ok? && r.value.State() == Counter(record.generation, record.nextFree, end) && host.world.disk == {seen}
        case Migrate(next) =>
          if fate.Succeeds() then
            r.Ok? && r.value.State() == Counter(0, next, end)
            && host.world.disk == {Present(InitialImage(host.env, next))}
          else r == Err(Io)
      ensures r.Err? && old(host.world.holder).None? ==> pid !in host.world.procs
      ensures r.Ok? ==> fresh(r.value) && r.value.Valid() && r.value.host == host
      ensures r.Ok? ==> seen.Present?
      ensures r.Ok? && |seen.data| == JOURNAL_SIZE ==>
        var record := Recover(host.codec.hash, seen.data, host.env.tag, end);
        record.Ok? && r.value.State() == Counter(record.value.generation, record.value.nextFree, end)
      ensures r.Ok? && |seen.data| != JOURNAL_SIZE ==>
        && Predecessor(host.codec, host.env.tag, seen.data, end, r.value.next)
        && r.value.State() == Counter(0, r.value.next, end)
      ensures lockOk && old(host.world.holder).None? && readOk ==>
        forall other, next, versioned :: PrintedFor(seen, other, next, versioned) && other != host.env.tag ==>
          r == Err(Unusable(Legacy(LegacyForeignKey))) && host.world.disk == {seen}
    {
      hide IsRun, After, Contracted, Init, OpenDecision, InitialImage, Refusal, PrintedFor, Predecessor, Recover;
      forall other, next, versioned | PrintedFor(seen, other, next, versioned) && other != host.env.tag
        ensures Refusal(host.codec.hash, host.codec.utf8, host.env.tag, seen, end) == Some(Legacy(LegacyForeignKey))
        ensures OpenDecision(host.env, seen, end).Refuse?
      {
        ForeignFileRefused(host.codec, host.env.tag, seen, end, other, next, versioned);
        assert DecidesAs(host.env, host.codec, seen, end);
      }
      if !lockOk {
        return Err(Io);
      }
      host.Do(LockForOpen(pid, end));
      if pid !in host.world.procs {
        return Err(Busy);
      }
      if !readOk {
        host.Do(Release(pid));
        return Err(Unusable(CannotRead));
      }
      var decision := host.Decide(seen, end);
      host.Do(ReadState(pid, seen));
      if decision.Err? {
        return Err(Unusable(decision.error));
      }
      match decision.value {
        case Resume(current) =>
          OpenDecisionExactly(host.env, host.codec, seen, end, current, 0);
          var counter := new AtomicSlotCounter(host, pid, current.generation, current.nextFree, end);
          return Ok(counter);
        case Migrate(next) =>
          OpenDecisionExactly(host.env, host.codec, seen, end, JournalRecord(0, next, host.env.tag), next);
          var ok := InstallJournal(host, pid, next, fate);
          if !ok {
            return Err(Io);
          }
          var counter := new AtomicSlotCounter(host, pid, 0, next, end);
          return Ok(counter);
      }
    }

    /** Overwrites the inactive record with the next generation and syncs it. */
    method PersistNext(nextFree: u64, fate: PersistFate) returns (e: Option<SlotError>)
      requires Valid() && next < nextFree <= end + 1 && Torn(host.env, fate.torn, State())
      modifies this, host
      ensures host.Valid() && old(host.log) <= host.log && next == old(next)
      ensures old(host.Sound()) ==> host.Sound()
      ensures host.world.returned == old(host.world.returned) && host.world.signed == old(host.world.signed)
      ensures e == if old(generation) == U64_MAX then Some(Unusable(GenerationExhausted))
                   else if !fate.Succeeds() then Some(Io) else None
      ensures e.Some? ==> Valid() && generation == old(generation)
      ensures e.None? ==>
        && generation == old(generation) + 1
        && pid in host.world.procs
        && host.world.procs[pid] == Synced(Counter(generation, nextFree, end), nextFree - 1)
    {
      if generation == U64_MAX {
        return Some(Unusable(GenerationExhausted));
      }
      var generation' := generation + 1;
      var bytes := host.EncodedRecord(generation', nextFree);
      var ok := host.Overwrite(pid, nextFree - 1, bytes, fate);
      if !ok {
        return Some(Io);
      }
      generation := generation';
      return None;
    }

    /** Reserves the next slot. */
    method Reserve(fate: PersistFate) returns (r: Result<u32, SlotError>)
      requires Valid() && Torn(host.env, fate.torn, State())
      modifies this, host
      ensures Valid() && old(host.log) <= host.log && host.world.signed == old(host.world.signed)
      ensures old(host.Sound()) ==> host.Sound()
      ensures r ==
        if old(next) > end then Err(Exhausted(old(next), end))
        else if old(generation) == U64_MAX then Err(Unusable(GenerationExhausted))
        else if !fate.Succeeds() then Err(Io)
        else Ok(old(next))
      ensures r.Err? ==> State() == old(State()) && host.world.returned == old(host.world.returned)
      ensures r.Ok? ==>
        && State() == Counter(old(generation) + 1, old(next) + 1, end)
        && host.world.returned == old(host.world.returned) + [r.value]
        && host.world.procs[pid] == Reserved(State(), r.value)
    {
      if next > end {
        return Err(Exhausted(next, end));
      }
      var slot: u32 := next;
      var target: u64 := next + 1;
      var e := PersistNext(target, fate);
      if e.Some? {
        return Err(e.value);
      }
      next := target;
      host.Return(pid);
      return Ok(slot);
    }

    /** Reserves the slot the protocol chose, burning every slot below it. */
    method ReserveAt(requested: u32, fate: PersistFate) returns (r: Result<u32, SlotError>)
      requires Valid() && Torn(host.env, fate.torn, State())
      modifies this, host
      ensures Valid() && old(host.log) <= host.log && host.world.signed == old(host.world.signed)
      ensures old(host.Sound()) ==> host.Sound()
      ensures r ==
        if old(next) > end || requested > end then
          Err(Exhausted(if old(next) > requested then old(next) else requested, end))
        else if requested < old(next) then Err(AlreadySpent(requested, old(next)))
        else if old(generation) == U64_MAX then Err(Unusable(GenerationExhausted))
        else if !fate.Succeeds() then Err(Io)
        else Ok(requested)
      ensures r.Err? ==> State() == old(State()) && host.world.returned == old(host.world.returned)
      ensures r.Ok? ==>
        && State() == Counter(old(generation) + 1, requested + 1, end)
        && host.world.returned == old(host.world.returned) + [requested]
        && host.world.procs[pid] == Reserved(State(), requested)
    {
      if next > end || requested > end {
        return Err(Exhausted(if next > requested then next else requested, end));
      }
      if requested < next {
        return Err(AlreadySpent(requested, next));
      }
      var target: u64 := requested + 1;
      var e := PersistNext(target, fate);
      if e.Some? {
        return Err(e.value);
      }
      next := target;
      host.Return(pid);
      return Ok(requested);
    }
  }

  type Signature = Bytes

  datatype SignerError = Slot(reason: SlotError) | SigningFailed

  /** A committee member's signing key behind its slot counter. */
  class SignerNode {
    const counter: AtomicSlotCounter

    constructor (counter: AtomicSlotCounter)
      ensures this.counter == counter
    {
      this.counter := counter;
    }

    ghost predicate Valid()
      reads counter, counter.host
    {
      counter.Valid() && counter.host.Sound()
    }

    /** No image the disk may be left with calls `slot` free again. */
    ghost predicate Spent(slot: u32)
      reads counter, counter.host
    {
      forall f <- counter.host.world.disk ::
        var frontier := Frontier(counter.host.env, f); frontier.Some? && slot < frontier.value
    }

    /**
     Burn before sign: the key is used on `slot` only after the slot is spent on
     disk. `crypto` is what the XMSS operation yields.
     */
    method SignWith(message: Bytes, slot: u32, crypto: Option<Signature>) returns (r: Result<Signature, SignerError>)
      requires Valid() && counter.host.world.procs[counter.pid] == Reserved(counter.State(), slot)
      modifies counter.host
      ensures Valid() && old(counter.host.log) <= counter.host.log && Spent(slot)
      ensures counter.host.world.returned == old(counter.host.world.returned)
      ensures r == if crypto.Some? then Ok(crypto.value) else Err(SigningFailed)
      ensures counter.host.world.signed ==
        old(counter.host.world.signed) + if crypto.Some? then [Signed(slot, message)] else []
    {
      counter.host.Holds();
      counter.host.Do(Event.Sign(counter.pid, message, crypto.Some?));
      assert forall f <- counter.host.world.disk :: Good(counter.host.env, f, counter.host.world.returned);
      return if crypto.Some? then Ok(crypto.value) else Err(SigningFailed);
    }

    /** Signs at the next local slot. */
    method Sign(message: Bytes, fate: PersistFate, crypto: Option<Signature>)
      returns (r: Result<(u32, Signature), SignerError>)
      requires Valid() && Torn(counter.host.env, fate.torn, counter.State())
      modifies counter, counter.host
      ensures Valid() && old(counter.host.log) <= counter.host.log
      ensures r.Err? ==> counter.host.world.signed == old(counter.host.world.signed)
      ensures r.Err? && r.error.Slot? ==> counter.State() == old(counter.State())
      ensures r.Ok? <==>
        old(counter.next) <= counter.end && old(counter.generation) < U64_MAX && fate.Succeeds() && crypto.Some?
      ensures (r.Ok? || r.error.SigningFailed?) ==> counter.next == old(counter.next) + 1
      ensures r.Ok? ==>
        && r.value.0 == old(counter.next) <= counter.end && Spent(r.value.0) && crypto == Some(r.value.1)
        && counter.host.world.signed == old(counter.host.world.signed) + [Signed(r.value.0, message)]
    {
      var slot := counter.Reserve(fate);
      if slot.Err? {
        return Err(Slot(slot.error));
      }
      var signature := SignWith(message, slot.value, crypto);
      return if signature.Ok? then Ok((slot.value, signature.value)) else Err(signature.error);
    }

    /** Signs at the slot the protocol assigned to the round, or abstains. */
    method SignAt(message: Bytes, slot: u32, fate: PersistFate, crypto: Option<Signature>)
      returns (r: Result<Signature, SignerError>)
      requires Valid() && Torn(counter.host.env, fate.torn, counter.State())
      modifies counter, counter.host
      ensures Valid() && old(counter.host.log) <= counter.host.log
      ensures r.Err? ==> counter.host.world.signed == old(counter.host.world.signed)
      ensures r.Err? && r.error.Slot? ==> counter.State() == old(counter.State())
      ensures r.Ok? <==>
        && old(counter.next) <= slot <= counter.end && old(counter.generation) < U64_MAX
        && fate.Succeeds() && crypto.Some?
      ensures (r.Ok? || r.error.SigningFailed?) ==> counter.next == slot + 1
      ensures slot < old(counter.next) <= counter.end ==>
        r == Err(Slot(AlreadySpent(slot, old(counter.next))))
      ensures r.Ok? ==>
        && old(counter.next) <= slot <= counter.end && Spent(slot) && crypto == Some(r.value)
        && counter.host.world.signed == old(counter.host.world.signed) + [Signed(slot, message)]
    {
      var reserved := counter.ReserveAt(slot, fate);
      if reserved.Err? {
        return Err(Slot(reserved.error));
      }
      r := SignWith(message, slot, crypto);
    }
  }
}
