/**
 The life of one relying party's high-water mark as a step system: processes that
 take the lock, create, open or recover the mark, and offer authenticated versions
 to it, with a failure, a crash or a loss of the file possible between any two steps.
 */
module MarkProtocol {
  import opened Prelude
  import opened ByteStrings
  import opened Storage

  /** `None` is the mark of a verifier that has accepted nothing. */
  type Mark = Option<u32>

  /** How a mark is shown and read, and which records are authentic at a version. */
  datatype Env = Env(
    show: Mark -> Bytes,
    parse: Bytes -> Option<Mark>,
    authentic: (Bytes, u32) -> bool)

  ghost predicate Lawful(env: Env) {
    forall m :: env.parse(env.show(m)) == Some(m)
  }

  datatype Acceptance = Acceptance(record: Bytes, version: u32)

  /** What a failed persist returns to: the live mark that offered `record`. */
  datatype Offered = Offered(current: Mark, record: Bytes)

  datatype Phase =
    | CreateLocked
    | OpenLocked
    | RecoverLocked(version: u32)
    | Saving(target: Mark, offer: Option<Offered>)   // writing the temporary file
    | TmpSynced(target: Mark, offer: Option<Offered>)
    | Renamed(target: Mark, offer: Option<Offered>)
    | Live(current: Mark)

  datatype World = World(disk: Disk, holder: Option<nat>, procs: map<nat, Phase>, accepted: seq<Acceptance>)

  datatype Event =
    | Lock(p: nat, phase: Phase)
    | ProbeCreate(p: nat, seen: FileImage, ok: bool)
    | ReadOpen(p: nat, seen: FileImage, ok: bool)
    | ReadRecover(p: nat, seen: FileImage, ok: bool)
    | Offer(p: nat, record: Bytes, version: u32)
    | TmpSync(p: nat, ok: bool)
    | Rename(p: nat, data: Bytes, happened: bool, ok: bool)
    | DirSync(p: nat, ok: bool)
    | Release(p: nat)
    | PowerLoss(seen: FileImage)
    | Lose(seen: FileImage)

  /** The mark an image holds, if it is readable at all. */
  function MarkOf(env: Env, f: FileImage): Option<Mark> {
    if f.Absent? then None else env.parse(f.data)
  }

  /** `try_advance`'s rule. */
  predicate Newer(current: Mark, version: u32) {
    current.Some? ==> version > current.value
  }

  predicate Enabled(env: Env, w: World, e: Event) {
    match e
    case Lock(p, ph) => p !in w.procs && (ph.CreateLocked? || ph.OpenLocked? || ph.RecoverLocked?)
    case ProbeCreate(p, seen, _) => p in w.procs && w.procs[p].CreateLocked? && seen in w.disk
    case ReadOpen(p, seen, _) => p in w.procs && w.procs[p].OpenLocked? && seen in w.disk
    case ReadRecover(p, seen, _) => p in w.procs && w.procs[p].RecoverLocked? && seen in w.disk
    case Offer(p, record, version) =>
      p in w.procs && w.procs[p].Live? && Newer(w.procs[p].current, version)
    case TmpSync(p, _) => p in w.procs && w.procs[p].Saving?
    case Rename(p, data, happened, ok) =>
      p in w.procs && w.procs[p].TmpSynced? && data == env.show(w.procs[p].target) && (ok ==> happened)
    case DirSync(p, _) => p in w.procs && w.procs[p].Renamed? && (w.procs[p].offer.Some? ==> w.procs[p].target.Some?)
    case Release(p) => p in w.procs
    case PowerLoss(seen) => seen in w.disk
    case Lose(seen) => MarkOf(env, seen) == None
  }

  function Goes(w: World, p: nat, phase: Phase): World {
    w.(procs := w.procs[p := phase])
  }

  function Released(w: World, p: nat): World {
    w.(procs := w.procs - {p}, holder := if w.holder == Some(p) then None else w.holder)
  }

  /** A persist that failed: an offer is refused, a constructor gives up. */
  function Failed(w: World, p: nat, offer: Option<Offered>): World {
    if offer.Some? then Goes(w, p, Live(offer.value.current)) else Released(w, p)
  }

  function Apply(env: Env, w: World, e: Event): World
    requires Enabled(env, w, e)
  {
    match e
    case Lock(p, ph) => if w.holder.Some? then w else Goes(w.(holder := Some(p)), p, ph)
    case ProbeCreate(p, seen, ok) =>
      var w' := w.(disk := {seen});
      if ok && seen.Absent? then Goes(w', p, Saving(None, None)) else Released(w', p)
    case ReadOpen(p, seen, ok) =>
      var w' := w.(disk := {seen});
      var m := MarkOf(env, seen);
      if ok && m.Some? then Goes(w', p, Live(m.value)) else Released(w', p)
    case ReadRecover(p, seen, ok) =>
      var w' := w.(disk := {seen});
      if ok && MarkOf(env, seen).None? then Goes(w', p, Saving(Some(w.procs[p].version), None)) else Released(w', p)
    case Offer(p, record, version) => Goes(w, p, Saving(Some(version), Some(Offered(w.procs[p].current, record))))
    case TmpSync(p, ok) =>
      var ph := w.procs[p];
      if ok then Goes(w, p, TmpSynced(ph.target, ph.offer)) else Failed(w, p, ph.offer)
    case Rename(p, data, happened, ok) =>
      var ph := w.procs[p];
      var w' := if happened then w.(disk := AfterRename(w.disk, data)) else w;
      if ok then Goes(w', p, Renamed(ph.target, ph.offer)) else Failed(w', p, ph.offer)
    case DirSync(p, ok) =>
      var ph := w.procs[p];
      if !ok then Failed(w, p, ph.offer) else
      var w' := Goes(w.(disk := {Present(env.show(ph.target))}), p, Live(ph.target));
      if ph.offer.Some? then
        w'.(accepted := w.accepted + [Acceptance(ph.offer.value.record, ph.target.value)])
      else w'
    case Release(p) => Released(w, p)
    case PowerLoss(seen) => w.(disk := {seen}, holder := None, procs := map[])
    case Lose(seen) => w.(disk := {seen})
  }

  // --------------------------------------------------------------- what is claimed

  predicate Increasing(accepted: seq<Acceptance>) {
    forall i, j | 0 <= i < j < |accepted| :: accepted[i].version < accepted[j].version
  }

  /** The mark is at least every accepted version. */
  predicate Covers(m: Mark, accepted: seq<Acceptance>) {
    accepted == [] || (m.Some? && forall i | 0 <= i < |accepted| :: accepted[i].version <= m.value)
  }

  predicate AllBelow(accepted: seq<Acceptance>, version: u32) {
    forall i | 0 <= i < |accepted| :: accepted[i].version < version
  }

  /**
   What callers owe: a mark is created afresh only before anything was accepted, recovered
   only at a version no older than any accepted one, and offered only verified records.
   */
  predicate Contract(env: Env, w: World, e: Event)
    requires Enabled(env, w, e)
  {
    match e
    case ProbeCreate(_, seen, ok) => ok && seen.Absent? ==> w.accepted == []
    case ReadRecover(p, seen, ok) =>
      ok && MarkOf(env, seen).None? ==> Covers(Some(w.procs[p].version), w.accepted)
    case Offer(_, record, version) => env.authentic(record, version)
    case _ => true
  }

  ghost predicate PhaseOk(env: Env, w: World, ph: Phase) {
    match ph
    case CreateLocked => true
    case OpenLocked => true
    case RecoverLocked(_) => true
    case Saving(target, offer) => SavingOk(env, w, target, offer)
    case TmpSynced(target, offer) => SavingOk(env, w, target, offer)
    case Renamed(target, offer) => SavingOk(env, w, target, offer)
    case Live(current) => Covers(current, w.accepted)
  }

  ghost predicate SavingOk(env: Env, w: World, target: Mark, offer: Option<Offered>) {
    && Covers(target, w.accepted)
    && (offer.Some? ==>
          && target.Some? && AllBelow(w.accepted, target.value)
          && Covers(offer.value.current, w.accepted) && env.authentic(offer.value.record, target.value))
  }

  ghost predicate Inv(env: Env, w: World) {
    && Lawful(env)
    && (forall f <- w.disk :: MarkOf(env, f).Some? ==> Covers(MarkOf(env, f).value, w.accepted))
    && Increasing(w.accepted)
    && (forall i | 0 <= i < |w.accepted| :: env.authentic(w.accepted[i].record, w.accepted[i].version))
    && (forall p <- w.procs :: w.holder == Some(p) && PhaseOk(env, w, w.procs[p]))
  }

  lemma StepKeepsInv(env: Env, w: World, e: Event)
    requires Inv(env, w) && Enabled(env, w, e) && Contract(env, w, e)
    ensures Inv(env, Apply(env, w, e))
  {
  }

  // -------------------------------------------------------------------- whole runs

  ghost predicate IsRun(env: Env, w: World, run: seq<Event>)
    decreases |run|, 0
  {
    run == [] ||
    var k := |run| - 1;
    IsRun(env, w, run[..k]) && Enabled(env, After(env, w, run[..k]), run[k])
  }

  ghost function After(env: Env, w: World, run: seq<Event>): World
    requires IsRun(env, w, run)
    decreases |run|, 1
  {
    if run == [] then w
    else var k := |run| - 1; Apply(env, After(env, w, run[..k]), run[k])
  }

  ghost predicate Contracted(env: Env, w: World, run: seq<Event>)
    requires IsRun(env, w, run)
  {
    run == [] ||
    var k := |run| - 1;
    Contracted(env, w, run[..k]) && Contract(env, After(env, w, run[..k]), run[k])
  }

  lemma {:induction false} RunKeepsInv(env: Env, w: World, run: seq<Event>)
    requires Inv(env, w) && IsRun(env, w, run) && Contracted(env, w, run)
    ensures Inv(env, After(env, w, run))
    decreases |run|
  {
    if run != [] {
      var k := |run| - 1;
      RunKeepsInv(env, w, run[..k]);
      StepKeepsInv(env, After(env, w, run[..k]), run[k]);
    }
  }

  /** A relying party before its first record. */
  ghost predicate Starts(env: Env, w: World) {
    w.holder == None && w.procs == map[] && w.accepted == []
  }

  ghost predicate Init(env: Env, w: World) {
    Lawful(env) && Starts(env, w)
  }

  /**
   Over every run with restarts, crashes, failed persists and losses of the file:
   accepted versions strictly increase, each was authentic, and whatever readable
   mark a crash leaves is at least every accepted version.
   */
  lemma NeverRollsBack(env: Env, w: World, run: seq<Event>)
    requires Init(env, w) && IsRun(env, w, run) && Contracted(env, w, run)
    ensures var w' := After(env, w, run);
      && Increasing(w'.accepted)
      && (forall i | 0 <= i < |w'.accepted| :: env.authentic(w'.accepted[i].record, w'.accepted[i].version))
      && (forall f <- w'.disk :: MarkOf(env, f).Some? ==> Covers(MarkOf(env, f).value, w'.accepted))
  {
    RunKeepsInv(env, w, run);
  }

  /** Without a loss, the disk always holds a readable mark once something was accepted. */
  lemma {:induction false} ReadableUnlessLost(env: Env, w: World, run: seq<Event>)
    requires Init(env, w) && IsRun(env, w, run) && (forall e <- run :: !e.Lose?)
    requires w.disk != {}
    ensures var w' := After(env, w, run);
      && w'.disk != {}
      && (w'.accepted != [] ==> forall f <- w'.disk :: MarkOf(env, f).Some?)
    decreases |run|
  {
    if run != [] {
      var k := |run| - 1;
      assert forall e <- run[..k] :: e in run;
      ReadableUnlessLost(env, w, run[..k]);
      assert run[k] in run;
    }
  }

  /** So, short of a loss of the file, a caller that offers only verified records keeps every contract. */
  lemma {:induction false} ContractedUnlessLost(env: Env, w: World, run: seq<Event>)
    requires Init(env, w) && IsRun(env, w, run) && (forall e <- run :: !e.Lose?)
    requires forall e <- run :: e.Offer? ==> env.authentic(e.record, e.version)
    requires w.disk != {}
    ensures Contracted(env, w, run)
    decreases |run|
  {
    if run != [] {
      var k := |run| - 1;
      assert forall e <- run[..k] :: e in run;
      ContractedUnlessLost(env, w, run[..k]);
      ReadableUnlessLost(env, w, run[..k]);
    }
  }

  // ------------------------------------------------------- the contracts are exact

  lemma Extend(env: Env, w: World, run: seq<Event>, e: Event)
    requires IsRun(env, w, run) && Contracted(env, w, run)
    requires Enabled(env, After(env, w, run), e) && Contract(env, After(env, w, run), e)
    ensures IsRun(env, w, run + [e]) && Contracted(env, w, run + [e])
    ensures After(env, w, run + [e]) == Apply(env, After(env, w, run), e)
  {
    var longer := run + [e];
    assert longer[..|longer| - 1] == run;
  }

  /** A persist that meets no failure. */
  lemma SaveRun(env: Env, w: World, run: seq<Event>, p: nat) returns (longer: seq<Event>)
    requires Lawful(env) && IsRun(env, w, run) && Contracted(env, w, run)
    requires p in After(env, w, run).procs && After(env, w, run).procs[p].Saving?
    requires var ph := After(env, w, run).procs[p]; ph.offer.Some? ==> ph.target.Some?
    ensures IsRun(env, w, longer) && Contracted(env, w, longer)
    ensures var w0, ph := After(env, w, run), After(env, w, run).procs[p];
      && p in After(env, w, longer).procs && After(env, w, longer).procs[p] == Live(ph.target)
      && After(env, w, longer).accepted == w0.accepted +
           if ph.offer.Some? then [Acceptance(ph.offer.value.record, ph.target.value)] else []
  {
    var target := After(env, w, run).procs[p].target;
    longer := run;
    Extend(env, w, longer, TmpSync(p, true));
    longer := longer + [TmpSync(p, true)];
    var rename := Rename(p, env.show(target), true, true);
    Extend(env, w, longer, rename);
    longer := longer + [rename];
    Extend(env, w, longer, DirSync(p, true));
    longer := longer + [DirSync(p, true)];
  }

  /**
   Both contracts are exact: a creation or a recovery is harmless if and only if it
   meets its contract. Otherwise some continuation accepts a version again.
   */
  lemma ContractExactly(env: Env, w: World, e: Event)
    requires Inv(env, w) && Enabled(env, w, e) && (e.ProbeCreate? || e.ReadRecover?)
    ensures Contract(env, w, e) <==>
      forall run ::
        IsRun(env, Apply(env, w, e), run) && Contracted(env, Apply(env, w, e), run)
        ==> Increasing(After(env, Apply(env, w, e), run).accepted)
  {
    var w1 := Apply(env, w, e);
    if Contract(env, w, e) {
      StepKeepsInv(env, w, e);
      forall run | IsRun(env, w1, run) && Contracted(env, w1, run)
        ensures Increasing(After(env, w1, run).accepted)
      {
        RunKeepsInv(env, w1, run);
      }
    } else {
      var target := w1.procs[e.p].target;
      var i :| 0 <= i < |w.accepted| && Newer(target, w.accepted[i].version);
      var again := w.accepted[i];
      var run := SaveRun(env, w1, [], e.p);
      Extend(env, w1, run, Offer(e.p, again.record, again.version));
      run := run + [Offer(e.p, again.record, again.version)];
      run := SaveRun(env, w1, run, e.p);
      var accepted := After(env, w1, run).accepted;
      assert accepted[i] == again && accepted[|w.accepted|] == again;
    }
  }
}
