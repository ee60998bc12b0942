/**
 The high-water mark: its one-line text, and the object that holds it. Every
 method drives the host through steps of MarkProtocol.
 */
module Freshness {
  import opened Prelude
  import opened ByteStrings
  import opened Text
  import opened Storage
  import opened MarkProtocol

  datatype ParseError = EmptyFile | MissingValue | TrailingData | ForeignAnchor | Unparseable

  /** `parse`: the mark for exactly this anchor fingerprint. */
  function ParseMark(s: string, fingerprint: string): Result<Mark, ParseError> {
    var words := Words(s);
    if |words| == 0 then Err(EmptyFile)
    else if |words| == 1 then Err(MissingValue)
    else if |words| > 2 then Err(TrailingData)
    else if words[0] != fingerprint then Err(ForeignAnchor)
    else if words[1] == "none" then Ok(None)
    else
      var version := ParseUnsigned(words[1], U32_MAX);
      if version.None? then Err(Unparseable) else Ok(Some(version.value as u32))
  }

  function MarkValue(m: Mark): string {
    if m.None? then "none" else Decimal(m.value)
  }

  function MarkLine(digest: Bytes, m: Mark): string {
    Hex(digest) + " " + MarkValue(m) + "\n"
  }

  lemma MarkValueIsWord(m: Mark)
    ensures IsWord(MarkValue(m)) && IsAscii(MarkValue(m))
  {
    if m.Some? {
      ParseOfDecimal(m.value, U32_MAX);
    }
  }

  lemma MarkLineShape(digest: Bytes, m: Mark)
    requires digest != []
    ensures Words(MarkLine(digest, m)) == [Hex(digest), MarkValue(m)]
    ensures IsAscii(MarkLine(digest, m))
  {
    MarkValueIsWord(m);
    HexIsWord(digest);
    hide Hex, MarkValue, Words;
    WordsOfLine(Hex(digest), MarkValue(m));
  }

  /**
   A text is accepted exactly if it is two words: this anchor's fingerprint, and "none"
   or a 32-bit number, which is the mark.
   */
  lemma ParseMarkExactly(s: string, fingerprint: string, m: Mark)
    ensures ParseMark(s, fingerprint) == Ok(m) <==>
      exists value ::
        && Words(s) == [fingerprint, value]
        && (if value == "none" then m.None? else m.Some? && ParseUnsigned(value, U32_MAX) == Some(m.value))
  {
    hide Words, ParseUnsigned;
    var words := Words(s);
    if |words| == 2 {
      assert words == [words[0], words[1]];
    }
  }

  /** What `persist` prints is what `parse` reads. */
  lemma MarkLineReads(digest: Bytes, m: Mark)
    requires digest != []
    ensures ParseMark(MarkLine(digest, m), Hex(digest)) == Ok(m)
  {
    MarkLineShape(digest, m);
    if m.Some? {
      ParseOfDecimal(m.value, U32_MAX);
    }
  }

  /** A mark written for one anchor is refused under any other, short of a hash collision. */
  lemma ForeignMarkRefused(h: Hash32, anchor: Bytes, other: Bytes, m: Mark)
    requires anchor != other
    ensures ParseMark(MarkLine(Digest(h, anchor), m), Hex(Digest(h, other))) == Err(ForeignAnchor)
         || Collision(h, anchor, other)
  {
    MarkLineShape(Digest(h, anchor), m);
    if Hex(Digest(h, anchor)) == Hex(Digest(h, other)) {
      HexInjective(Digest(h, anchor), Digest(h, other));
    }
  }

  /** The foreign parts of the format, and the digest of the anchor. */
  datatype Codec = Codec(utf8: Utf8, digest: Bytes)

  function ShowMark(codec: Codec, m: Mark): Bytes {
    var line := MarkLine(codec.digest, m);
    if IsAscii(line) then AsciiBytes(line) else []
  }

  function ReadMark(codec: Codec, b: Bytes): Option<Mark> {
    var text := codec.utf8(b);
    if text.None? then None else
    var parsed := ParseMark(text.value, Hex(codec.digest));
    if parsed.Ok? then Some(parsed.value) else None
  }

  /** The bytes are a text that names this anchor and the mark `m`. */
  ghost predicate NamesMark(codec: Codec, b: Bytes, m: Mark) {
    codec.utf8(b).Some? && exists value ::
      && Words(codec.utf8(b).value) == [Hex(codec.digest), value]
      && (if value == "none" then m.None? else m.Some? && ParseUnsigned(value, U32_MAX) == Some(m.value))
  }

  lemma ReadMarkExactly(codec: Codec, b: Bytes, m: Mark)
    ensures ReadMark(codec, b) == Some(m) <==> NamesMark(codec, b, m)
  {
    hide ParseMark, Words, ParseUnsigned;
    if codec.utf8(b).Some? {
      ParseMarkExactly(codec.utf8(b).value, Hex(codec.digest), m);
    }
  }

  function MarkEnv(codec: Codec, authentic: (Bytes, u32) -> bool): Env {
    Env((m: Mark) => ShowMark(codec, m), (b: Bytes) => ReadMark(codec, b), authentic)
  }

  lemma MarkIsLawful(codec: Codec, authentic: (Bytes, u32) -> bool)
    requires codec.digest != []
    ensures Lawful(MarkEnv(codec, authentic))
  {
    forall m
      ensures ReadMark(codec, ShowMark(codec, m)) == Some(m)
    {
      MarkLineShape(codec.digest, m);
      MarkLineReads(codec.digest, m);
    }
  }

  /** No rollback at the real format: whatever the digest and the decoder, in every run. */
  lemma MarkNeverRollsBack(codec: Codec, authentic: (Bytes, u32) -> bool, w: World, run: seq<Event>)
    requires codec.digest != []
    requires var env := MarkEnv(codec, authentic); Starts(env, w) && IsRun(env, w, run) && Contracted(env, w, run)
    ensures var env := MarkEnv(codec, authentic);
      var w' := After(env, w, run);
      && Increasing(w'.accepted)
      && (forall i | 0 <= i < |w'.accepted| :: authentic(w'.accepted[i].record, w'.accepted[i].version))
      && (forall f <- w'.disk :: MarkOf(env, f).Some? ==> Covers(MarkOf(env, f).value, w'.accepted))
  {
    hide IsRun, After, Contracted, Starts, Lawful;
    MarkIsLawful(codec, authentic);
    NeverRollsBack(MarkEnv(codec, authentic), w, run);
  }

  datatype MarkError = Unusable | Busy | Io

  datatype Decision = Accepted | Stale(mark: u32)

  predicate ShowsAs(env: Env, codec: Codec, m: Mark) {
    env.show(m) == ShowMark(codec, m)
  }

  predicate ParsesAs(env: Env, codec: Codec, b: Bytes) {
    env.parse(b) == ReadMark(codec, b)
  }

  ghost predicate IsMarkFormat(env: Env, codec: Codec) {
    && (forall m :: ShowsAs(env, codec, m))
    && (forall b :: ParsesAs(env, codec, b))
  }

  /** The operating system under the mark's path, with its whole history. */
  class Host {
    const codec: Codec
    const env: Env
    var world: World
    ghost const genesis: World
    ghost var log: seq<Event>

    ghost predicate Valid()
      reads this
    {
      && IsMarkFormat(env, codec) && Init(env, genesis)
      && IsRun(env, genesis, log) && world == After(env, genesis, log)
    }

    /** Every caller so far met its contract. */
    ghost predicate Sound()
      reads this
    {
      Valid() && Contracted(env, genesis, log)
    }

    constructor (codec: Codec, authentic: (Bytes, u32) -> bool, world: World)
      requires codec.digest != [] && Starts(MarkEnv(codec, authentic), world)
      ensures Sound() && this.world == world && log == [] && this.codec == codec && env.authentic == authentic
    {
      this.codec, this.env := codec, MarkEnv(codec, authentic);
      this.world, genesis, log := world, world, [];
      new;
      MarkIsLawful(codec, authentic);
    }

    /** Every state of a sound host satisfies the invariant of the step system. */
    lemma Holds()
      requires Sound()
      ensures Inv(env, world)
    {
      RunKeepsInv(env, genesis, log);
    }

    method Do(e: Event)
      requires Valid() && Enabled(env, world, e)
      modifies this
      ensures Valid() && world == Apply(env, old(world), e) && log == old(log) + [e]
      ensures old(Sound()) && Contract(env, old(world), e) ==> Sound()
    {
      world := Apply(env, world, e);
      log := log + [e];
      assert log[..|log| - 1] == old(log);
    }

    /** The line `persist` writes for a mark. */
    method Line(m: Mark) returns (line: Bytes)
      requires Valid()
      ensures line == env.show(m)
    {
      assert ShowsAs(env, codec, m);
      return ShowMark(codec, m);
    }

    /** Decoding and parsing of the bytes read. */
    method Read(seen: FileImage) returns (m: Option<Mark>)
      requires Valid()
      ensures m == MarkOf(env, seen)
    {
      if seen.Absent? {
        return None;
      }
      assert ParsesAs(env, codec, seen.data);
      return ReadMark(codec, seen.data);
    }
  }

  /** `persist`: write and sync a temporary file, rename it, sync the directory. */
  method Persist(host: Host, p: nat, fate: ReplaceFate) returns (ok: bool)
    requires host.Valid() && fate.Possible()
    requires p in host.world.procs && host.world.procs[p].Saving?
    requires host.world.procs[p].offer.Some? ==> host.world.procs[p].target.Some?
    modifies host
    ensures host.Valid() && ok == fate.Succeeds() && old(host.log) <= host.log
    ensures old(host.Sound()) ==> host.Sound()
    ensures ok ==>
      var ph := old(host.world.procs[p]);
      && host.world.disk == {Present(host.env.show(ph.target))}
      && host.world.procs == old(host.world.procs)[p := Live(ph.target)]
      && host.world.accepted == old(host.world.accepted) +
           if ph.offer.Some? then [Acceptance(ph.offer.value.record, ph.target.value)] else []
    ensures !ok ==>
      && host.world.accepted == old(host.world.accepted)
      && host.world.procs == (var offer := old(host.world.procs[p]).offer;
           if offer.Some? then old(host.world.procs)[p := Live(offer.value.current)]
           else old(host.world.procs) - {p})
  {
    hide IsRun, After, Contracted, Init;
    var line := host.Line(host.world.procs[p].target);
    host.Do(TmpSync(p, fate.tmpOk));
    if !fate.tmpOk {
      return false;
    }
    host.Do(Rename(p, line, fate.renameHappened, fate.renameOk));
    if !fate.renameOk {
      return false;
    }
    host.Do(DirSync(p, fate.dirSyncOk));
    return fate.dirSyncOk;
  }

  class HighWaterMark {
    const host: Host
    const pid: nat
    var current: u32
    var have: bool

    function Current(): Mark
      reads this
    {
      if have then Some(current) else None
    }

    ghost predicate Valid()
      reads this, host
    {
      host.Valid() && pid in host.world.procs && host.world.procs[pid] == Live(Current())
    }

    constructor (host: Host, pid: nat, mark: Mark)
      requires host.Valid() && pid in host.world.procs && host.world.procs[pid] == Live(mark)
      ensures Valid() && this.host == host && this.pid == pid && Current() == mark
    {
      this.host, this.pid := host, pid;
      this.current, this.have := if mark.Some? then mark.value else 0, mark.Some?;
    }

    /** A mark for a verifier that has never accepted a record. */
    static method Create(host: Host, pid: nat, lockOk: bool, seen: FileImage, metadataOk: bool, fate: ReplaceFate)
      returns (r: Result<HighWaterMark, MarkError>)
      requires host.Valid() && pid !in host.world.procs && fate.Possible() && seen in host.world.disk
      modifies host
      ensures host.Valid() && host.world.accepted == old(host.world.accepted) && old(host.log) <= host.log
      ensures old(host.Sound()) && (metadataOk && seen.Absent? ==> old(host.world.accepted) == []) ==> host.Sound()
      ensures !lockOk ==> r == Err(Io) && host.world == old(host.world)
      ensures r.Ok? <==>
        lockOk && old(host.world.holder).None? && metadataOk && seen.Absent? && fate.Succeeds()
      ensures r.Ok? ==>
        && fresh(r.value) && r.value.Valid() && r.value.host == host && r.value.Current() == None
        && host.world.disk == {Present(host.env.show(None))}
      ensures lockOk && seen.Present? && metadataOk && old(host.world.holder).None? ==> host.world.disk == {seen}
    {
      hide IsRun, After, Contracted, Init;
      if !lockOk {
        return Err(Io);
      }
      host.Do(Lock(pid, CreateLocked));
      if pid !in host.world.procs {
        return Err(Busy);
      }
      host.Do(ProbeCreate(pid, seen, metadataOk));
      if !metadataOk {
        return Err(Io);
      }
      if seen.Present? {
        return Err(Unusable);
      }
      var ok := Persist(host, pid, fate);
      if !ok {
        return Err(Io);
      }
      var mark := new HighWaterMark(host, pid, None);
      return Ok(mark);
    }

    /** Opens the existing mark of this anchor. */
    static method Open(host: Host, pid: nat, lockOk: bool, seen: FileImage, readOk: bool)
      returns (r: Result<HighWaterMark, MarkError>)
      requires host.Valid() && pid !in host.world.procs && seen in host.world.disk
      modifies host
      ensures host.Valid() && host.world.accepted == old(host.world.accepted) && old(host.log) <= host.log
      ensures old(host.Sound()) ==> host.Sound()
      ensures !lockOk ==> r == Err(Io) && host.world == old(host.world)
      ensures r.Ok? <==> lockOk && old(host.world.holder).None? && readOk && MarkOf(host.env, seen).Some?
      ensures r.Ok? ==>
        && fresh(r.value) && r.value.Valid() && r.value.host == host
        && seen.Present? && NamesMark(host.codec, seen.data, r.value.Current())
      ensures lockOk && old(host.world.holder).None? && readOk && r.Err? && seen.Present? ==>
        forall m :: !NamesMark(host.codec, seen.data, m)
    {
      hide IsRun, After, Contracted, Init, ReadMark, NamesMark;
      if seen.Present? {
        forall m
          ensures MarkOf(host.env, seen) == Some(m) <==> NamesMark(host.codec, seen.data, m)
        {
          assert ParsesAs(host.env, host.codec, seen.data);
          ReadMarkExactly(host.codec, seen.data, m);
        }
      }
      if !lockOk {
        return Err(Io);
      }
      host.Do(Lock(pid, OpenLocked));
      if pid !in host.world.procs {
        return Err(Busy);
      }
      var parsed := host.Read(seen);
      host.Do(ReadOpen(pid, seen, readOk));
      if !readOk || parsed.None? {
        return Err(Unusable);
      }
      var mark := new HighWaterMark(host, pid, parsed.value);
      return Ok(mark);
    }

    /** If the mark is really lost, the version is at least every accepted one. */
    static predicate RecoversLatest(env: Env, w: World, latest: u32, seen: FileImage, readOk: bool) {
      readOk && MarkOf(env, seen).None? ==> Covers(Some(latest), w.accepted)
    }

    /** Explicit recovery of a lost or invalid mark at the registry's latest version. */
    static method LoadFromTrustedSource(host: Host, pid: nat, latest: u32, lockOk: bool, seen: FileImage, readOk: bool,
                                        fate: ReplaceFate)
      returns (r: Result<HighWaterMark, MarkError>)
      requires host.Valid() && pid !in host.world.procs && fate.Possible() && seen in host.world.disk
      modifies host
      ensures host.Valid() && host.world.accepted == old(host.world.accepted) && old(host.log) <= host.log
      ensures old(host.Sound()) && RecoversLatest(host.env, old(host.world), latest, seen, readOk) ==> host.Sound()
      ensures !lockOk ==> r == Err(Io) && host.world == old(host.world)
      ensures r.Ok? <==>
        lockOk && old(host.world.holder).None? && readOk && MarkOf(host.env, seen).None? && fate.Succeeds()
      ensures r.Ok? ==>
        && fresh(r.value) && r.value.Valid() && r.value.host == host && r.value.Current() == Some(latest)
        && host.world.disk == {Present(host.env.show(Some(latest)))}
      ensures r.Ok? && seen.Present? ==> forall m :: !NamesMark(host.codec, seen.data, m)
    {
      hide IsRun, After, Contracted, Init, ReadMark, NamesMark;
      if seen.Present? {
        forall m
          ensures MarkOf(host.env, seen) == Some(m) <==> NamesMark(host.codec, seen.data, m)
        {
          assert ParsesAs(host.env, host.codec, seen.data);
          ReadMarkExactly(host.codec, seen.data, m);
        }
      }
      if !lockOk {
        return Err(Io);
      }
      host.Do(Lock(pid, RecoverLocked(latest)));
      if pid !in host.world.procs {
        return Err(Busy);
      }
      var parsed := host.Read(seen);
      host.Do(ReadRecover(pid, seen, readOk));
      if !readOk {
        return Err(Io);
      }
      if parsed.Some? {
        return Err(Unusable);
      }
      var ok := Persist(host, pid, fate);
      if !ok {
        return Err(Io);
      }
      var mark := new HighWaterMark(host, pid, Some(latest));
      return Ok(mark);
    }

    /** Accepts only a strictly newer version, and only once it is on disk. `record` is the evidence. */
    method TryAdvance(version: u32, record: Bytes, fate: ReplaceFate) returns (r: Result<Decision, MarkError>)
      requires Valid() && fate.Possible()
      modifies this, host
      ensures Valid() && old(host.log) <= host.log
      ensures old(host.Sound()) && host.env.authentic(record, version) ==> host.Sound()
      ensures r ==
        if old(have) && version <= old(current) then Ok(Stale(old(current)))
        else if fate.Succeeds() then Ok(Accepted) else Err(Io)
      ensures r == Ok(Accepted) ==>
        && Current() == Some(version) && host.world.disk == {Present(host.env.show(Some(version)))}
        && host.world.accepted == old(host.world.accepted) + [Acceptance(record, version)]
      ensures r != Ok(Accepted) ==>
        && Current() == old(Current()) && host.world.accepted == old(host.world.accepted)
    {
      hide IsRun, After, Contracted, Init;
      if have && version <= current {
        return Ok(Stale(current));
      }
      host.Do(Offer(pid, record, version));
      var ok := Persist(host, pid, fate);
      if !ok {
        return Err(Io);
      }
      current, have := version, true;
      return Ok(Accepted);
    }
  }
}
