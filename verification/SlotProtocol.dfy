/**
 The life of one key's slot state as a step system: processes that take an
 exclusive lock, create, open or migrate the journal, reserve slots in it and
 sign, with a failure or a crash possible between any two steps.
 */
module SlotProtocol {
  import opened Prelude
  import opened ByteStrings
  import opened Storage
  import opened SlotJournal

  /**
   One key and one state path: how a record is read and written, how a textual
   predecessor is read, and `cap`, the bound on the window end of every process.
   */
  datatype Env = Env(
    read: (Bytes, nat) -> Option<JournalRecord>,
    write: JournalRecord -> Bytes,
    legacy: Bytes -> Option<(u64, bool)>,
    tag: Tag,
    cap: u32)

  /** Records are read back exactly, each in the region of its own parity. */
  ghost predicate Lawful(env: Env) {
    && (forall r :: |env.write(r)| == RECORD_SIZE && env.read(env.write(r), r.generation % 2) == Some(r))
    && (forall b, slot :: env.read(b, slot).Some? ==>
          var r := env.read(b, slot).value; b == env.write(r) && slot == r.generation % 2)
    && (forall slot :: env.read(Zeros(RECORD_SIZE), slot) == None)
  }

  datatype Counter = Counter(generation: u64, next: u64, end: u32)

  /** Where a process that took the lock stands. */
  datatype Phase =
    | CreateLocked(start: u32, end: u32)     // create: about to look for the file
    | OpenLocked(end: u32)                   // open: about to read the file
    | Installing(next: u64, end: u32)        // install_journal: writing the temporary file
    | TmpSynced(next: u64, end: u32)         // about to rename it over the path
    | Renamed(next: u64, end: u32)           // about to sync the directory
    | Holding(c: Counter)                    // a live counter, nothing in progress
    | Reserving(c: Counter, slot: u32)       // checks passed, record not yet written
    | Written(c: Counter, slot: u32)         // record written, sync_data not yet done
    | Synced(c: Counter, slot: u32)          // durable, slot not yet handed out
    | Reserved(c: Counter, slot: u32)        // slot handed out, not yet signed with

  datatype Signed<M> = Signed(slot: u32, message: M)

  /** `returned` and `signed` log what the run has handed out and signed so far. */
  datatype World<M> = World(
    disk: Disk,
    holder: Option<nat>,
    procs: map<nat, Phase>,
    returned: seq<u32>,
    signed: seq<Signed<M>>)

  datatype Event<M> =
    | LockForCreate(p: nat, start: u32, end: u32)
    | LockForOpen(p: nat, end: u32)
    | ProbeExists(p: nat, seen: FileImage, answer: bool)
    | ReadState(p: nat, seen: FileImage)
    | TmpSync(p: nat)
    | Rename(p: nat, image: Bytes, happened: bool, ok: bool)
    | DirSync(p: nat)
    | BeginReserve(p: nat, slot: u32)
    | SeekFails(p: nat)
    | WriteRecord(p: nat, rec: Bytes, torn: Bytes, ok: bool)
    | SyncData(p: nat, ok: bool)
    | ReturnSlot(p: nat)
    | Sign(p: nat, message: M, ok: bool)
    | Release(p: nat)             // drop, error return, or death of the process
    | PowerLoss(seen: FileImage)

  // ----------------------------------------------------------------- reading

  datatype OpenOutcome = Refuse | Resume(record: JournalRecord) | Migrate(next: u64)

  function ReadRegion(env: Env, data: Bytes, slot: nat): Option<JournalRecord>
    requires |data| == JOURNAL_SIZE && slot < 2
  {
    env.read(Region(data, slot), slot)
  }

  function Recovered(env: Env, data: Bytes, end: u32): Result<JournalRecord, RecoverError>
    requires |data| == JOURNAL_SIZE
  {
    Elect(ReadRegion(env, data, 0), ReadRegion(env, data, 1), env.tag, end)
  }

  /** What `open` makes of the bytes it read. */
  function OpenDecision(env: Env, f: FileImage, end: u32): OpenOutcome {
    if f.Absent? then Refuse
    else if |f.data| == JOURNAL_SIZE then
      var r := Recovered(env, f.data, end);
      if r.Ok? then Resume(r.value) else Refuse
    else
      var parsed := env.legacy(f.data);
      if parsed.None? then Refuse else
      var (next, unversioned) := parsed.value;
      if next > end + 1 then Refuse
      else if unversioned && end == U32_MAX && next == U32_MAX then Refuse
      else Migrate(next)
  }

  /** The lowest slot that an image still calls free; none if it names no frontier. */
  function Frontier(env: Env, f: FileImage): Option<u64> {
    if f.Absent? then None
    else if |f.data| == JOURNAL_SIZE then
      var r := Recovered(env, f.data, env.cap);
      if r.Ok? then Some(r.value.nextFree) else None
    else
      var parsed := env.legacy(f.data);
      if parsed.Some? && parsed.value.0 <= env.cap + 1 then Some(parsed.value.0) else None
  }

  // ------------------------------------------------------------------- steps

  function RecordBytes(env: Env, c: Counter): Bytes {
    env.write(JournalRecord(c.generation, c.next, env.tag))
  }

  /** The image `install_journal` puts in place: generation 0, one record. */
  function InitialImage(env: Env, next: u64): Bytes {
    var rec := env.write(JournalRecord(0, next, env.tag));
    if |rec| <= JOURNAL_SIZE then Splice(Zeros(JOURNAL_SIZE), 0, rec) else rec
  }

  /** The counter a reservation of `slot` leaves. */
  function Advanced(c: Counter, slot: u32): Counter
    requires c.generation < U64_MAX
  {
    Counter(c.generation + 1, slot + 1, c.end)
  }

  function RegionOffset(generation: nat): nat {
    generation % 2 * JOURNAL_SLOT_SIZE
  }

  /** A partial image of `c`'s next record: it does not read as a record. */
  predicate Torn(env: Env, torn: Bytes, c: Counter) {
    |torn| == RECORD_SIZE && env.read(torn, (c.generation + 1) % 2) == None
  }

  predicate Enabled<M>(env: Env, w: World<M>, e: Event<M>) {
    match e
    case LockForCreate(p, start, end) => p !in w.procs && end <= env.cap
    case LockForOpen(p, end) => p !in w.procs && end <= env.cap
    case ProbeExists(p, seen, answer) =>
      // `Path::exists` answers false when the metadata call fails, too
      p in w.procs && w.procs[p].CreateLocked? && seen in w.disk && (answer ==> seen.Present?)
    case ReadState(p, seen) => p in w.procs && w.procs[p].OpenLocked? && seen in w.disk
    case TmpSync(p) => p in w.procs && w.procs[p].Installing?
    case Rename(p, image, happened, ok) =>
      p in w.procs && w.procs[p].TmpSynced? && image == InitialImage(env, w.procs[p].next) && (ok ==> happened)
    case DirSync(p) => p in w.procs && w.procs[p].Renamed?
    case BeginReserve(p, slot) =>
      p in w.procs && (w.procs[p].Holding? || w.procs[p].Reserved?)
      && (var c := w.procs[p].c; c.next <= slot <= c.end && c.generation < U64_MAX)
    case SeekFails(p) => p in w.procs && w.procs[p].Reserving?
    case WriteRecord(p, rec, torn, _) =>
      p in w.procs && w.procs[p].Reserving?
      && w.procs[p].c.generation < U64_MAX
      && rec == RecordBytes(env, Advanced(w.procs[p].c, w.procs[p].slot))
      && Torn(env, torn, w.procs[p].c)
    case SyncData(p, _) => p in w.procs && w.procs[p].Written? && w.procs[p].c.generation < U64_MAX
    case ReturnSlot(p) => p in w.procs && w.procs[p].Synced?
    case Sign(p, _, _) => p in w.procs && w.procs[p].Reserved?
    case Release(p) => p in w.procs
    case PowerLoss(seen) => seen in w.disk
  }

  function Goes<M>(w: World<M>, p: nat, phase: Phase): World<M> {
    w.(procs := w.procs[p := phase])
  }

  function Released<M>(w: World<M>, p: nat): World<M> {
    w.(procs := w.procs - {p}, holder := if w.holder == Some(p) then None else w.holder)
  }

  function Apply<M>(env: Env, w: World<M>, e: Event<M>): World<M>
    requires Enabled(env, w, e)
  {
    match e
    case LockForCreate(p, start, end) =>
      if w.holder.Some? then w else Goes(w.(holder := Some(p)), p, CreateLocked(start, end))
    case LockForOpen(p, end) =>
      if w.holder.Some? then w else Goes(w.(holder := Some(p)), p, OpenLocked(end))
    case ProbeExists(p, seen, answer) =>
      var w' := w.(disk := {seen});
      if answer then Released(w', p) else Goes(w', p, Installing(w.procs[p].start, w.procs[p].end))
    case ReadState(p, seen) =>
      var w' := w.(disk := {seen});
      var end := w.procs[p].end;
      (match OpenDecision(env, seen, end)
       case Refuse => Released(w', p)
       case Resume(r) => Goes(w', p, Holding(Counter(r.generation, r.nextFree, end)))
       case Migrate(next) => Goes(w', p, Installing(next, end)))
    case TmpSync(p) => Goes(w, p, TmpSynced(w.procs[p].next, w.procs[p].end))
    case Rename(p, image, happened, ok) =>
      var w' := if happened then w.(disk := AfterRename(w.disk, image)) else w;
      if ok then Goes(w', p, Renamed(w.procs[p].next, w.procs[p].end)) else Released(w', p)
    case DirSync(p) =>
      var image := InitialImage(env, w.procs[p].next);
      Goes(w.(disk := {Present(image)}), p, Holding(Counter(0, w.procs[p].next, w.procs[p].end)))
    case BeginReserve(p, slot) => Goes(w, p, Reserving(w.procs[p].c, slot))
    case SeekFails(p) => Goes(w, p, Holding(w.procs[p].c))
    case WriteRecord(p, rec, torn, ok) =>
      var ph := w.procs[p];
      var w' := w.(disk := AfterWrite(w.disk, RegionOffset(ph.c.generation + 1), rec, torn));
      if ok then Goes(w', p, Written(ph.c, ph.slot)) else Goes(w', p, Holding(ph.c))
    case SyncData(p, ok) =>
      var ph := w.procs[p];
      var c' := Advanced(ph.c, ph.slot);
      if ok then
        Goes(w.(disk := AfterSync(w.disk, RegionOffset(c'.generation), RecordBytes(env, c'))), p, Synced(c', ph.slot))
      else Goes(w, p, Holding(ph.c))
    case ReturnSlot(p) =>
      Goes(w.(returned := w.returned + [w.procs[p].slot]), p, Reserved(w.procs[p].c, w.procs[p].slot))
    case Sign(p, message, ok) =>
      var w' := Goes(w, p, Holding(w.procs[p].c));
      if ok then w'.(signed := w.signed + [Signed(w.procs[p].slot, message)]) else w'
    case Release(p) => Released(w, p)
    case PowerLoss(seen) => w.(disk := {seen}, holder := None, procs := map[])
  }

  /** A run, and the world it ends in. */
  ghost predicate IsRun<M>(env: Env, w: World<M>, run: seq<Event<M>>)
    decreases |run|, 0
  {
    run == [] ||
    var k := |run| - 1;
    IsRun(env, w, run[..k]) && Enabled(env, After(env, w, run[..k]), run[k])
  }

  ghost function After<M>(env: Env, w: World<M>, run: seq<Event<M>>): World<M>
    requires IsRun(env, w, run)
    decreases |run|, 1
  {
    if run == [] then w
    else var k := |run| - 1; Apply(env, After(env, w, run[..k]), run[k])
  }

  /**
   What `create` leaves to its caller and its host: a start at most one past the end,
   and an existence probe that either tells the truth or does no harm.
   */
  predicate Contract<M>(env: Env, w: World<M>, e: Event<M>)
    requires Enabled(env, w, e)
  {
    match e
    case LockForCreate(_, start, _) => start <= env.cap + 1
    case ProbeExists(p, seen, answer) => seen.Present? && !answer ==> Below(w.returned, w.procs[p].start)
    case _ => true
  }

  ghost predicate Contracted<M>(env: Env, w: World<M>, run: seq<Event<M>>)
    requires IsRun(env, w, run)
  {
    run == [] ||
    var k := |run| - 1;
    Contracted(env, w, run[..k]) && Contract(env, After(env, w, run[..k]), run[k])
  }

  // -------------------------------------------------------------- invariant

  predicate Below(slots: seq<u32>, n: int) {
    forall i | 0 <= i < |slots| :: slots[i] < n
  }

  predicate Increasing(slots: seq<u32>) {
    forall i, j | 0 <= i < j < |slots| :: slots[i] < slots[j]
  }

  function SlotsOf<M>(signed: seq<Signed<M>>): (slots: seq<u32>)
    ensures |slots| == |signed|
    ensures forall i | 0 <= i < |signed| :: slots[i] == signed[i].slot
  {
    seq(|signed|, i requires 0 <= i < |signed| => signed[i].slot)
  }

  /** Opening this image, should a crash leave it, cannot hand a spent slot out. */
  predicate Good(env: Env, f: FileImage, returned: seq<u32>) {
    if f.Absent? then returned == []
    else Frontier(env, f).Some? && Below(returned, Frontier(env, f).value)
  }

  /** The journal's settled record is `c`'s; the other is older, one ahead, or no record. */
  predicate Keeps(env: Env, f: FileImage, c: Counter) {
    f.Present? && |f.data| == JOURNAL_SIZE
    && (var own := JournalRecord(c.generation, c.next, env.tag);
        var other := ReadRegion(env, f.data, 1 - c.generation % 2);
        && ReadRegion(env, f.data, c.generation % 2) == Some(own)
        && (other.Some? ==>
              && other.value.keyTag == env.tag && other.value.nextFree <= env.cap + 1
              && (Follows(other.value, own) || Follows(own, other.value))))
  }

  ghost predicate AllKeep(env: Env, disk: Disk, c: Counter) {
    forall f {:trigger Keeps(env, f, c)} | f in disk :: Keeps(env, f, c)
  }

  ghost predicate AllGood(env: Env, disk: Disk, returned: seq<u32>) {
    forall f {:trigger Good(env, f, returned)} | f in disk :: Good(env, f, returned)
  }

  ghost predicate PhaseOk<M>(env: Env, w: World<M>, ph: Phase) {
    match ph
    case CreateLocked(start, end) => start <= env.cap + 1 && end <= env.cap
    case OpenLocked(end) => end <= env.cap
    case Installing(next, end) => Below(w.returned, next) && next <= env.cap + 1 && end <= env.cap
    case TmpSynced(next, end) => Below(w.returned, next) && next <= env.cap + 1 && end <= env.cap
    case Renamed(next, end) => Below(w.returned, next) && next <= env.cap + 1 && end <= env.cap
    case Holding(c) => LiveOk(env, w, c)
    case Reserving(c, slot) => LiveOk(env, w, c) && c.next <= slot <= c.end && c.generation < U64_MAX
    case Written(c, slot) => LiveOk(env, w, c) && c.next <= slot <= c.end && c.generation < U64_MAX
    case Synced(c, slot) => LiveOk(env, w, c) && c.next == slot + 1 && Below(w.returned, slot)
    case Reserved(c, slot) =>
      LiveOk(env, w, c) && c.next == slot + 1 && slot in w.returned && Below(SlotsOf(w.signed), slot)
  }

  ghost predicate LiveOk<M>(env: Env, w: World<M>, c: Counter) {
    AllKeep(env, w.disk, c) && Below(w.returned, c.next) && c.next <= env.cap + 1 && c.end <= env.cap
  }

  ghost predicate Inv<M>(env: Env, w: World<M>) {
    && Lawful(env)
    && w.disk != {}
    && AllGood(env, w.disk, w.returned)
    && Increasing(w.returned) && Increasing(SlotsOf(w.signed))
    && (forall s <- w.signed :: s.slot in w.returned)
    && (forall p <- w.procs :: w.holder == Some(p) && PhaseOk(env, w, w.procs[p]))
  }

  /** A state path before any process runs: empty, or a state file with a frontier. */
  ghost predicate Starts<M>(env: Env, w: World<M>) {
    w.holder == None && w.procs == map[] && w.signed == [] && Increasing(w.returned)
    && exists f :: w.disk == {f} && Good(env, f, w.returned)
  }

  ghost predicate Init<M>(env: Env, w: World<M>) {
    Lawful(env) && Starts(env, w)
  }
}
