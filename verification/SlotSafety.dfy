/** Every run keeps the slot invariant; from it, no slot is ever handed out twice. */
module SlotSafety {
  import opened Prelude
  import opened ByteStrings
  import opened Storage
  import opened SlotJournal
  import opened SlotProtocol

  // ------------------------------------------------------------ single images

  /** Overwriting one region replaces what is read there and nothing else. */
  lemma ReadOfSplice(env: Env, data: Bytes, slot: nat, rec: Bytes, other: nat)
    requires |data| == JOURNAL_SIZE && slot < 2 && other < 2 && |rec| == RECORD_SIZE
    ensures var r := Splice(data, slot * JOURNAL_SLOT_SIZE, rec);
      ReadRegion(env, r, other) == if other == slot then env.read(rec, slot) else ReadRegion(env, data, other)
  {
    RegionOfSplice(data, slot, rec, other);
  }

  lemma KeepsIsGood(env: Env, f: FileImage, c: Counter, returned: seq<u32>)
    requires Lawful(env) && Keeps(env, f, c) && Below(returned, c.next) && c.next <= env.cap + 1
    ensures Good(env, f, returned)
  {
  }

  /** What the two regions read after a record is written over one of them. */
  lemma PatchedReads(env: Env, f: FileImage, generation: nat, rec: Bytes)
    requires f.Present? && |f.data| == JOURNAL_SIZE && |rec| == RECORD_SIZE
    ensures var p, slot := Patched(f, RegionOffset(generation), rec), generation % 2;
      && p.Present? && |p.data| == JOURNAL_SIZE
      && ReadRegion(env, p.data, slot) == env.read(rec, slot)
      && ReadRegion(env, p.data, 1 - slot) == ReadRegion(env, f.data, 1 - slot)
  {
    hide ReadRegion;
    ReadOfSplice(env, f.data, generation % 2, rec, generation % 2);
    ReadOfSplice(env, f.data, generation % 2, rec, 1 - generation % 2);
  }

  lemma RecordReads(env: Env, r: JournalRecord)
    requires Lawful(env)
    ensures |env.write(r)| == RECORD_SIZE && env.read(env.write(r), r.generation % 2) == Some(r)
  {
  }

  lemma Parity(n: nat)
    ensures (n + 1) % 2 == 1 - n % 2
  {
  }

  /** A crash during a write leaves the old frontier or the new one, in an accepted journal. */
  lemma KeepsThroughWrite(env: Env, f: FileImage, c: Counter, slot: u32, rec: Bytes)
    requires Lawful(env) && Keeps(env, f, c) && c.generation < U64_MAX && c.next <= slot <= env.cap
    requires |rec| == RECORD_SIZE
    requires rec == RecordBytes(env, Advanced(c, slot)) || env.read(rec, (c.generation + 1) % 2) == None
    ensures Keeps(env, Patched(f, RegionOffset(c.generation + 1), rec), c)
  {
    hide Lawful, Patched, RegionOffset, ReadRegion;
    PatchedReads(env, f, c.generation + 1, rec);
    RecordReads(env, JournalRecord(c.generation + 1, slot + 1, env.tag));
    Parity(c.generation);
  }

  lemma KeepsAfterSync(env: Env, f: FileImage, c: Counter, slot: u32)
    requires Lawful(env) && Keeps(env, f, c) && c.generation < U64_MAX && c.next <= slot <= env.cap
    ensures var c' := Advanced(c, slot);
      Keeps(env, Patched(f, RegionOffset(c'.generation), RecordBytes(env, c')), c')
  {
    hide Lawful, Patched, RegionOffset, ReadRegion;
    RecordReads(env, JournalRecord(c.generation + 1, slot + 1, env.tag));
    PatchedReads(env, f, c.generation + 1, RecordBytes(env, Advanced(c, slot)));
    Parity(c.generation);
  }

  lemma InitialImageKeeps(env: Env, next: u64, end: u32)
    requires Lawful(env)
    ensures Keeps(env, Present(InitialImage(env, next)), Counter(0, next, end))
    ensures ReadRegion(env, InitialImage(env, next), 0) == Some(JournalRecord(0, next, env.tag))
    ensures ReadRegion(env, InitialImage(env, next), 1) == None
  {
    var rec := env.write(JournalRecord(0, next, env.tag));
    ReadOfSplice(env, Zeros(JOURNAL_SIZE), 0, rec, 0);
    ReadOfSplice(env, Zeros(JOURNAL_SIZE), 0, rec, 1);
    assert Region(Zeros(JOURNAL_SIZE), 1) == Zeros(RECORD_SIZE);
  }

  /** A counter that `open` resumes stands exactly at the image's frontier. */
  lemma ResumedAtFrontier(env: Env, f: FileImage, end: u32, r: JournalRecord)
    requires Lawful(env) && end <= env.cap && OpenDecision(env, f, end) == Resume(r)
    ensures Frontier(env, f) == Some(r.nextFree) && r.nextFree <= end + 1
    ensures Keeps(env, f, Counter(r.generation, r.nextFree, end))
  {
    var a, b := ReadRegion(env, f.data, 0), ReadRegion(env, f.data, 1);
    ElectExactly(a, b, env.tag, end, r);
    ElectExactly(a, b, env.tag, env.cap, r);
  }

  // -------------------------------------------------------------- single steps

  lemma AppendIncreasing(slots: seq<u32>, n: u32)
    requires Increasing(slots) && Below(slots, n)
    ensures Increasing(slots + [n]) && Below(slots + [n], n + 1)
  {
  }

  lemma WriteKeepsAll(env: Env, disk: Disk, c: Counter, slot: u32, rec: Bytes, torn: Bytes)
    requires Lawful(env) && AllKeep(env, disk, c) && c.generation < U64_MAX && c.next <= slot <= env.cap
    requires rec == RecordBytes(env, Advanced(c, slot)) && Torn(env, torn, c)
    ensures AllKeep(env, AfterWrite(disk, RegionOffset(c.generation + 1), rec, torn), c)
  {
    var at := RegionOffset(c.generation + 1);
    forall g | g in disk
      ensures Keeps(env, Patched(g, at, rec), c) && Keeps(env, Patched(g, at, torn), c)
    {
      KeepsThroughWrite(env, g, c, slot, rec);
      KeepsThroughWrite(env, g, c, slot, torn);
    }
  }

  lemma WritePersists(disk: Disk, at: nat, rec: Bytes, torn: Bytes)
    requires disk != {}
    ensures AfterWrite(disk, at, rec, torn) != {}
  {
    var f :| f in disk;
    assert f in AfterWrite(disk, at, rec, torn);
  }

  lemma SyncKeepsAll(env: Env, disk: Disk, c: Counter, slot: u32)
    requires Lawful(env) && AllKeep(env, disk, c) && c.generation < U64_MAX && c.next <= slot <= env.cap
    ensures var c' := Advanced(c, slot);
      AllKeep(env, AfterSync(disk, RegionOffset(c'.generation), RecordBytes(env, c')), c')
  {
    forall g | g in disk
      ensures var c' := Advanced(c, slot);
        Keeps(env, Patched(g, RegionOffset(c'.generation), RecordBytes(env, c')), c')
    {
      KeepsAfterSync(env, g, c, slot);
    }
  }

  lemma AllKeepIsGood(env: Env, disk: Disk, c: Counter, returned: seq<u32>)
    requires Lawful(env) && AllKeep(env, disk, c) && Below(returned, c.next) && c.next <= env.cap + 1
    ensures AllGood(env, disk, returned)
  {
    forall f | f in disk
      ensures Good(env, f, returned)
    {
      KeepsIsGood(env, f, c, returned);
    }
  }

  /** The lock holder may move to any live phase whose counter every image keeps. */
  lemma LiveStepKeepsInv<M>(env: Env, w: World<M>, p: nat, disk: Disk, ph: Phase)
    requires Inv(env, w) && p in w.procs && disk != {}
    requires ph.Holding? || ph.Written? || ph.Synced?
    requires PhaseOk(env, w.(disk := disk), ph)
    ensures Inv(env, Goes(w.(disk := disk), p, ph))
  {
    AllKeepIsGood(env, disk, ph.c, w.returned);
  }

  lemma WriteKeepsInv<M>(env: Env, w: World<M>, e: Event<M>)
    requires Inv(env, w) && Enabled(env, w, e) && e.WriteRecord?
    ensures Inv(env, Apply(env, w, e))
  {
    hide AfterWrite, Keeps, Good;
    var ph := w.procs[e.p];
    var disk := Apply(env, w, e).disk;
    WritePersists(w.disk, RegionOffset(ph.c.generation + 1), e.rec, e.torn);
    WriteKeepsAll(env, w.disk, ph.c, ph.slot, e.rec, e.torn);
    LiveStepKeepsInv(env, w, e.p, disk, if e.ok then Written(ph.c, ph.slot) else Holding(ph.c));
  }

  lemma SyncKeepsInv<M>(env: Env, w: World<M>, e: Event<M>)
    requires Inv(env, w) && Enabled(env, w, e) && e.SyncData?
    ensures Inv(env, Apply(env, w, e))
  {
    var w', ph := Apply(env, w, e), w.procs[e.p];
    if e.ok {
      var c' := Advanced(ph.c, ph.slot);
      SyncKeepsAll(env, w.disk, ph.c, ph.slot);
      var f :| f in w.disk;
      assert Patched(f, RegionOffset(c'.generation), RecordBytes(env, c')) in w'.disk;
    }
    LiveStepKeepsInv(env, w, e.p, w'.disk, w'.procs[e.p]);
  }

  lemma InstallKeepsInv<M>(env: Env, w: World<M>, e: Event<M>)
    requires Inv(env, w) && Enabled(env, w, e) && (e.Rename? || e.DirSync?)
    ensures Inv(env, Apply(env, w, e))
  {
    var ph := w.procs[e.p];
    InitialImageKeeps(env, ph.next, ph.end);
    KeepsIsGood(env, Present(InitialImage(env, ph.next)), Counter(0, ph.next, ph.end), w.returned);
  }

  lemma ReadKeepsInv<M>(env: Env, w: World<M>, e: Event<M>)
    requires Inv(env, w) && Enabled(env, w, e) && e.ReadState?
    ensures Inv(env, Apply(env, w, e))
  {
    assert Good(env, e.seen, w.returned);
    var decision := OpenDecision(env, e.seen, w.procs[e.p].end);
    if decision.Resume? {
      ResumedAtFrontier(env, e.seen, w.procs[e.p].end, decision.record);
    }
  }

  lemma ReturnKeepsInv<M>(env: Env, w: World<M>, e: Event<M>)
    requires Inv(env, w) && Enabled(env, w, e) && e.ReturnSlot?
    ensures Inv(env, Apply(env, w, e))
  {
    var w', ph := Apply(env, w, e), w.procs[e.p];
    AppendIncreasing(w.returned, ph.slot);
    AllKeepIsGood(env, w'.disk, ph.c, w'.returned);
    assert w'.returned[|w.returned|] == ph.slot;
  }

  lemma SignKeepsInv<M>(env: Env, w: World<M>, e: Event<M>)
    requires Inv(env, w) && Enabled(env, w, e) && e.Sign?
    ensures Inv(env, Apply(env, w, e))
  {
    var w', ph := Apply(env, w, e), w.procs[e.p];
    if e.ok {
      AppendIncreasing(SlotsOf(w.signed), ph.slot);
      assert SlotsOf(w'.signed) == SlotsOf(w.signed) + [ph.slot];
    }
  }

  lemma LockingKeepsInv<M>(env: Env, w: World<M>, e: Event<M>)
    requires Inv(env, w) && Enabled(env, w, e) && Contract(env, w, e)
    requires e.LockForCreate? || e.LockForOpen? || e.ProbeExists? || e.TmpSync?
          || e.BeginReserve? || e.SeekFails? || e.Release? || e.PowerLoss?
    ensures Inv(env, Apply(env, w, e))
  {
    if e.ProbeExists? {
      assert Good(env, e.seen, w.returned);
    }
  }

  lemma StepKeepsInv<M>(env: Env, w: World<M>, e: Event<M>)
    requires Inv(env, w) && Enabled(env, w, e) && Contract(env, w, e)
    ensures Inv(env, Apply(env, w, e))
  {
    match e
    case WriteRecord(_, _, _, _) => WriteKeepsInv(env, w, e);
    case SyncData(_, _) => SyncKeepsInv(env, w, e);
    case Rename(_, _, _, _) => InstallKeepsInv(env, w, e);
    case DirSync(_) => InstallKeepsInv(env, w, e);
    case ReadState(_, _) => ReadKeepsInv(env, w, e);
    case ReturnSlot(_) => ReturnKeepsInv(env, w, e);
    case Sign(_, _, _) => SignKeepsInv(env, w, e);
    case _ => LockingKeepsInv(env, w, e);
  }

  // ---------------------------------------------------------------- whole runs

  lemma {:induction false} RunKeepsInv<M>(env: Env, w: World<M>, run: seq<Event<M>>)
    requires Inv(env, w) && IsRun(env, w, run) && Contracted(env, w, run)
    ensures Inv(env, After(env, w, run))
    decreases |run|
  {
    if run != [] {
      var k := |run| - 1;
      RunKeepsInv(env, w, run[..k]);
      StepKeepsInv(env, After(env, w, run[..k]), run[k]);
    }
  }

  lemma InitIsInv<M>(env: Env, w: World<M>)
    requires Init(env, w)
    ensures Inv(env, w)
  {
  }

  /** No slot is handed out twice, and no two signatures share a slot, in any run. */
  lemma NoSlotTwice<M>(env: Env, w: World<M>, run: seq<Event<M>>)
    requires Init(env, w) && IsRun(env, w, run) && Contracted(env, w, run)
    ensures var w' := After(env, w, run);
      && Increasing(w'.returned)
      && (forall i, j | 0 <= i < |w'.signed| && 0 <= j < |w'.signed| ::
            w'.signed[i].slot == w'.signed[j].slot ==> i == j)
      && (forall s <- w'.signed :: s.slot in w'.returned)
  {
    InitIsInv(env, w);
    RunKeepsInv(env, w, run);
    OneSignaturePerSlot(env, After(env, w, run));
  }

  lemma OneSignaturePerSlot<M>(env: Env, w: World<M>)
    requires Inv(env, w)
    ensures forall i, j | 0 <= i < |w.signed| && 0 <= j < |w.signed| ::
      w.signed[i].slot == w.signed[j].slot ==> i == j
  {
    forall i, j | 0 <= i < |w.signed| && 0 <= j < |w.signed| && w.signed[i].slot == w.signed[j].slot
      ensures i == j
    {
      assert SlotsOf(w.signed)[i] == SlotsOf(w.signed)[j];
    }
  }

  /**
   Whatever a crash leaves is usable: a journal is accepted for the same key and
   window, and what it recovers is above every slot handed out and within one past
   the end. A textual state is migrated at its frontier, or is the ambiguous one.
   */
  lemma EveryImageRecovers<M>(env: Env, w: World<M>, run: seq<Event<M>>, f: FileImage)
    requires Init(env, w) && IsRun(env, w, run) && Contracted(env, w, run)
    requires f in After(env, w, run).disk
    ensures var returned := After(env, w, run).returned;
      match OpenDecision(env, f, env.cap)
      case Resume(r) => r.keyTag == env.tag && Below(returned, r.nextFree) && r.nextFree <= env.cap + 1
      case Migrate(next) => Below(returned, next) && next <= env.cap + 1
      case Refuse =>
        || (f.Absent? && returned == [])
        || (f.Present? && |f.data| != JOURNAL_SIZE && env.cap == U32_MAX
            && env.legacy(f.data) == Some((U32_MAX, true)))
  {
    InitIsInv(env, w);
    RunKeepsInv(env, w, run);
    var w' := After(env, w, run);
    assert Good(env, f, w'.returned);
  }

  /** A freshly installed journal reopens for a window exactly when its start is at most one past the end. */
  lemma FreshJournalReopensExactly(env: Env, next: u64, end: u32)
    requires Lawful(env)
    ensures OpenDecision(env, Present(InitialImage(env, next)), end)
         == if next <= end + 1 then Resume(JournalRecord(0, next, env.tag)) else Refuse
  {
    InitialImageKeeps(env, next, end);
  }

  // ------------------------------------------------------------------ migration

  /** A run that opens, creates, fails and crashes, but reserves nothing and is not lied to. */
  ghost predicate Unreserving<M>(run: seq<Event<M>>) {
    forall e <- run :: !e.BeginReserve? && (e.ProbeExists? ==> e.answer == e.seen.Present?)
  }

  ghost predicate StandsAt<M>(env: Env, w: World<M>, next: u64, returned: seq<u32>) {
    && Lawful(env) && w.disk != {} && w.returned == returned
    && (forall f <- w.disk :: f.Present? && Frontier(env, f) == Some(next))
    && (forall p <- w.procs ::
          match w.procs[p]
          case Installing(n, _) => n == next
          case TmpSynced(n, _) => n == next
          case Renamed(n, _) => n == next
          case Holding(c) => c.next == next
          case CreateLocked(_, _) => true
          case OpenLocked(end) => end <= env.cap
          case _ => false)
  }

  lemma StepStands<M>(env: Env, w: World<M>, e: Event<M>, next: u64, returned: seq<u32>)
    requires StandsAt(env, w, next, returned) && next <= env.cap + 1
    requires Enabled(env, w, e) && Unreserving([e])
    ensures StandsAt(env, Apply(env, w, e), next, returned)
  {
    assert e == [e][0];
    if e.Rename? || e.DirSync? {
      var image := Present(InitialImage(env, next));
      InitialImageKeeps(env, next, 0);
      assert Frontier(env, image) == Some(next);
    } else if e.ReadState? {
      var decision := OpenDecision(env, e.seen, w.procs[e.p].end);
      if decision.Resume? {
        ResumedAtFrontier(env, e.seen, w.procs[e.p].end, decision.record);
      }
    }
  }

  /**
   Migration never moves the frontier and hands nothing out early: from a state
   file at `next`, through every failure and crash, each image that may be left
   still stands at `next`, until a slot is reserved.
   */
  lemma {:induction false} MigrationKeepsFrontier<M>(env: Env, w: World<M>, run: seq<Event<M>>, f: FileImage, next: u64)
    requires Lawful(env) && w.disk == {f} && w.procs == map[] && f.Present? && Frontier(env, f) == Some(next)
    requires IsRun(env, w, run) && Unreserving(run)
    ensures StandsAt(env, After(env, w, run), next, w.returned)
    decreases |run|
  {
    if run != [] {
      var k := |run| - 1;
      MigrationKeepsFrontier(env, w, run[..k], f, next);
      assert run[k] in run;
      StepStands(env, After(env, w, run[..k]), run[k], next, w.returned);
    }
  }

  // --------------------------------------------------- the existence probe of create

  lemma Extend<M>(env: Env, w: World<M>, run: seq<Event<M>>, e: Event<M>)
    requires IsRun(env, w, run) && Contracted(env, w, run)
    requires Enabled(env, After(env, w, run), e) && Contract(env, After(env, w, run), e)
    ensures IsRun(env, w, run + [e]) && Contracted(env, w, run + [e])
    ensures After(env, w, run + [e]) == Apply(env, After(env, w, run), e)
  {
    var longer := run + [e];
    assert longer[..|longer| - 1] == run;
  }

  /** The rest of `install_journal`, then a release: the path holds the fresh journal. */
  lemma InstallRun<M>(env: Env, w: World<M>, p: nat) returns (run: seq<Event<M>>)
    requires p in w.procs && w.procs[p].Installing? && w.holder == Some(p)
    ensures IsRun(env, w, run) && Contracted(env, w, run)
    ensures After(env, w, run)
         == w.(disk := {Present(InitialImage(env, w.procs[p].next))}, holder := None, procs := w.procs - {p})
  {
    run := [];
    Extend(env, w, run, TmpSync(p));
    run := run + [TmpSync(p)];
    var rename := Rename(p, InitialImage(env, w.procs[p].next), true, true);
    Extend(env, w, run, rename);
    run := run + [rename];
    Extend(env, w, run, DirSync(p));
    run := run + [DirSync(p)];
    Extend(env, w, run, Release(p));
    run := run + [Release(p)];
    assert After(env, w, run).procs == w.procs - {p};
  }

  /** `open`, then `reserve_at(slot)`, all of it succeeding. */
  lemma ReserveRun<M>(env: Env, w: World<M>, p: nat, next: u64, slot: u32) returns (run: seq<Event<M>>)
    requires Lawful(env) && w.procs == map[] && w.holder == None
    requires w.disk == {Present(InitialImage(env, next))} && next <= slot <= env.cap
    ensures IsRun(env, w, run) && Contracted(env, w, run)
    ensures After(env, w, run).returned == w.returned + [slot]
  {
    var image := Present(InitialImage(env, next));
    InitialImageKeeps(env, next, env.cap);
    run := [];
    Extend(env, w, run, LockForOpen(p, env.cap));
    run := run + [LockForOpen(p, env.cap)];
    assert OpenDecision(env, image, env.cap) == Resume(JournalRecord(0, next, env.tag));
    Extend(env, w, run, ReadState(p, image));
    run := run + [ReadState(p, image)];
    var c := Counter(0, next, env.cap);
    assert After(env, w, run).procs[p] == Holding(c);
    Extend(env, w, run, BeginReserve(p, slot));
    run := run + [BeginReserve(p, slot)];
    var write := WriteRecord(p, RecordBytes(env, Advanced(c, slot)), Zeros(RECORD_SIZE), true);
    Extend(env, w, run, write);
    run := run + [write];
    Extend(env, w, run, SyncData(p, true));
    run := run + [SyncData(p, true)];
    Extend(env, w, run, ReturnSlot(p));
    run := run + [ReturnSlot(p)];
  }

  lemma {:induction false} Concatenate<M>(env: Env, w: World<M>, first: seq<Event<M>>, second: seq<Event<M>>)
    requires IsRun(env, w, first) && IsRun(env, After(env, w, first), second)
    ensures IsRun(env, w, first + second)
    ensures After(env, w, first + second) == After(env, After(env, w, first), second)
    decreases |second|
  {
    if second == [] {
      assert first + second == first;
    } else {
      var k := |second| - 1;
      Concatenate(env, w, first, second[..k]);
      SplitLast(first, second);
      hide Enabled, Apply;
    }
  }

  lemma {:induction false} ConcatenateContracted<M>(env: Env, w: World<M>, first: seq<Event<M>>, second: seq<Event<M>>)
    requires IsRun(env, w, first) && Contracted(env, w, first)
    requires IsRun(env, After(env, w, first), second) && Contracted(env, After(env, w, first), second)
    ensures IsRun(env, w, first + second) && Contracted(env, w, first + second)
    ensures After(env, w, first + second) == After(env, After(env, w, first), second)
    decreases |second|
  {
    if second == [] {
      assert first + second == first;
    } else {
      var k := |second| - 1;
      ConcatenateContracted(env, w, first, second[..k]);
      Concatenate(env, w, first, second[..k]);
      Concatenate(env, w, first, second);
      SplitLast(first, second);
      hide Enabled, Apply, Contract;
    }
  }

  lemma SplitLast<T>(first: seq<T>, second: seq<T>)
    requires second != []
    ensures var whole, k := first + second, |second| - 1;
      whole != [] && whole[..|whole| - 1] == first + second[..k] && whole[|whole| - 1] == second[k]
  {
  }

  /**
   `create` trusts an existence probe that answers "no" on a metadata error. A
   lying answer is harmless exactly when the new start is above every slot handed
   out: otherwise some continuation hands a slot out a second time.
   */
  lemma LyingProbeExactly<M>(env: Env, w: World<M>, e: Event<M>)
    requires Inv(env, w) && Enabled(env, w, e) && e.ProbeExists? && e.seen.Present? && !e.answer
    ensures Below(w.returned, w.procs[e.p].start) <==>
      forall run: seq<Event<M>> ::
        IsRun(env, Apply(env, w, e), run) && Contracted(env, Apply(env, w, e), run)
        ==> Distinct(After(env, Apply(env, w, e), run).returned)
  {
    var w1, start := Apply(env, w, e), w.procs[e.p].start;
    if Below(w.returned, start) {
      StepKeepsInv(env, w, e);
      forall run: seq<Event<M>> | IsRun(env, w1, run) && Contracted(env, w1, run)
        ensures Distinct(After(env, w1, run).returned)
      {
        RunKeepsInv(env, w1, run);
      }
    } else {
      var i :| 0 <= i < |w.returned| && w.returned[i] >= start;
      var s := w.returned[i];
      assert Good(env, e.seen, w.returned) && s <= env.cap;
      var install := InstallRun(env, w1, e.p);
      var w2 := After(env, w1, install);
      assert w2.procs == map[];
      var reserve := ReserveRun(env, w2, e.p, start, s);
      ConcatenateContracted(env, w1, install, reserve);
      var returned := After(env, w1, install + reserve).returned;
      assert returned[i] == s && returned[|w.returned|] == s;
    }
  }

  /** A fresh key's first life: created at `start`, one slot handed out, then a power loss. */
  lemma FirstLife<M>(env: Env, start: u32) returns (w: World<M>, run: seq<Event<M>>, left: FileImage)
    requires Lawful(env) && start <= env.cap
    ensures Init(env, w) && w.disk == {Absent} && w.returned == []
    ensures IsRun(env, w, run) && Contracted(env, w, run)
    ensures left.Present?
    ensures var w' := After(env, w, run);
      w'.disk == {left} && w'.returned == [start] && w'.procs == map[] && w'.holder == None
  {
    w := World({Absent}, None, map[], [], []);
    assert Good(env, Absent, w.returned);
    run := [];
    Extend(env, w, run, LockForCreate(0, start, env.cap));
    run := run + [LockForCreate(0, start, env.cap)];
    Extend(env, w, run, ProbeExists(0, Absent, false));
    run := run + [ProbeExists(0, Absent, false)];
    var install := InstallRun(env, After(env, w, run), 0);
    ConcatenateContracted(env, w, run, install);
    run := run + install;
    assert After(env, w, run).procs == map[];
    var reserve := ReserveRun(env, After(env, w, run), 0, start, start);
    ConcatenateContracted(env, w, run, reserve);
    run := run + reserve;
    InitIsInv(env, w);
    RunKeepsInv(env, w, run);
    left :| left in After(env, w, run).disk;
    assert Good(env, left, After(env, w, run).returned);
    Extend(env, w, run, PowerLoss(left));
    run := run + [PowerLoss(left)];
  }

  /** `create` again after the restart: the process holds the lock and is about to probe. */
  lemma Relock<M>(env: Env, w: World<M>, run: seq<Event<M>>, start: u32) returns (longer: seq<Event<M>>)
    requires Init(env, w) && IsRun(env, w, run) && Contracted(env, w, run) && start <= env.cap
    requires After(env, w, run).procs == map[] && After(env, w, run).holder == None
    ensures IsRun(env, w, longer) && Inv(env, After(env, w, longer))
    ensures var w1, w' := After(env, w, run), After(env, w, longer);
      w'.disk == w1.disk && w'.returned == w1.returned && w'.procs == map[0 := CreateLocked(start, env.cap)]
  {
    Extend(env, w, run, LockForCreate(0, start, env.cap));
    longer := run + [LockForCreate(0, start, env.cap)];
    InitIsInv(env, w);
    RunKeepsInv(env, w, longer);
  }

  lemma LieEnabled<M>(env: Env, w: World<M>, start: u32, left: FileImage)
    requires w.procs == map[0 := CreateLocked(start, env.cap)] && w.disk == {left} && left.Present?
    ensures Enabled(env, w, ProbeExists(0, left, false))
  {
  }

  lemma Append<M>(env: Env, w: World<M>, run: seq<Event<M>>, e: Event<M>)
    requires IsRun(env, w, run) && Enabled(env, After(env, w, run), e)
    ensures IsRun(env, w, run + [e]) && After(env, w, run + [e]) == Apply(env, After(env, w, run), e)
  {
    var longer := run + [e];
    assert longer[..|longer| - 1] == run;
  }

  /**
   The lie is reached from nothing: a key is created on an empty path, spends one slot,
   and after a restart one failed metadata call lets it spend that slot again.
   */
  lemma SlotTwiceReachable<M>(env: Env, start: u32) returns (w: World<M>, run: seq<Event<M>>)
    requires Lawful(env) && start <= env.cap
    ensures Init(env, w) && w.disk == {Absent} && w.returned == []
    ensures IsRun(env, w, run) && !Distinct(After(env, w, run).returned)
  {
    hide IsRun, After, Contracted, Enabled, Apply, Init, Inv;
    var left;
    w, run, left := FirstLife(env, start);
    run := Relock(env, w, run, start);
    var w1, lie := After(env, w, run), ProbeExists(0, left, false);
    LieEnabled(env, w1, start, left);
    LyingProbeExactly(env, w1, lie);
    assert w1.returned[0] == w1.procs[0].start;
    var w2 := Apply(env, w1, lie);
    var again: seq<Event<M>> :|
      IsRun(env, w2, again) && Contracted(env, w2, again) && !Distinct(After(env, w2, again).returned);
    Append(env, w, run, lie);
    Concatenate(env, w, run + [lie], again);
    run := run + [lie] + again;
  }
}
