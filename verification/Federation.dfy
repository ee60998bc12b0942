/**
 The demo's nodes around one record cell. Every call of a node's methods is logged as
 steps of Rounds, so whatever is called in whatever order, the cell's values stay in
 order. Slot state, signatures and record bytes are the nodes' own.
 */
module Federation {
  import opened Prelude
  import opened ByteStrings
  import opened Anchor
  import opened Statement
  import opened Signers
  import opened StatusList
  import opened Verifiers
  import opened Nodes
  import opened Snapshot
  import opened CommitteeNode
  import opened Rounds
  import SlotCounter
  import SlotProtocol
  import Ssz

  /** A node of this anchor whose slot state is at `world`. */
  ghost predicate Joins(setup: Setup, node: Node, env: SlotProtocol.Env, world: SlotProtocol.World<Bytes>)
    reads node.signer.counter, node.signer.counter.host
  {
    && node.crypto == setup.crypto && node.committee == setup.committee
    && node.form == setup.form && node.prover == setup.prover
    && node.signer.Valid()
    && node.signer.counter.host.env == env && node.signer.counter.host.world == world
  }

  /** The node's member has signed nothing yet. */
  ghost predicate Unused(node: Node)
    reads node.signer.counter.host
  {
    node.signer.counter.host.world.signed == []
  }

  class Federation {
    const setup: Setup
    const nodes: seq<Node>
    /** Every value the record cell has held; the last one is current. */
    var cell: seq<Bytes>
    ghost const genesis: Net
    ghost var net: Net
    ghost var log: seq<Step>

    /** Nodes of one anchor, opened in whatever way, none of which has signed; nothing is published. */
    constructor (setup: Setup, nodes: seq<Node>)
      requires setup.Proper() && |nodes| == |setup.envs|
      requires forall i | 0 <= i < |nodes| ::
        Joins(setup, nodes[i], setup.envs[i], nodes[i].signer.counter.host.world) && Unused(nodes[i])
      requires forall i, j | 0 <= i < |nodes| && 0 <= j < |nodes| && i != j ::
        nodes[i].signer.counter != nodes[j].signer.counter
        && nodes[i].signer.counter.host != nodes[j].signer.counter.host
      ensures Valid() && cell == [] && this.setup == setup && this.nodes == nodes
    {
      hide SlotProtocol.IsRun, SlotProtocol.After, SlotProtocol.Contracted, IsRunOfRounds, End;
      ghost var worlds := seq(|nodes|, i requires 0 <= i < |nodes| => nodes[i].signer.counter.host.genesis);
      ghost var logs := seq(|nodes|, i requires 0 <= i < |nodes| reads set n <- nodes :: n.signer.counter.host =>
        nodes[i].signer.counter.host.log);
      ghost var start := Net(worlds, [], {}, {}, [], []);
      forall i | 0 <= i < |nodes|
        ensures SlotProtocol.Init(setup.envs[i], worlds[i]) && QuietLog(setup.envs[i], worlds[i], logs[i])
      {
        assert Joins(setup, nodes[i], setup.envs[i], nodes[i].signer.counter.host.world) && Unused(nodes[i]);
      }
      ghost var steps := QuietIsRun(setup, start, logs, |nodes|);
      this.setup, this.nodes, cell := setup, nodes, [];
      genesis, net, log := start, End(setup, start, steps), steps;
    }

    /** A node of this anchor, standing where the rounds say. */
    ghost predicate NodeOk(node: Node, i: nat)
      requires i < |setup.envs| && i < |net.members|
      reads this, node.signer.counter, node.signer.counter.host
    {
      Joins(setup, node, setup.envs[i], net.members[i])
    }

    ghost predicate Valid()
      reads this, set n <- nodes :: n.signer.counter, set n <- nodes :: n.signer.counter.host
    {
      && Start(setup, genesis) && IsRunOfRounds(setup, genesis, log) && net == End(setup, genesis, log)
      && cell == net.cell && |nodes| == |setup.envs| == |net.members|
      && (forall i | 0 <= i < |nodes| :: NodeOk(nodes[i], i))
      && (forall i, j | 0 <= i < |nodes| && 0 <= j < |nodes| && i != j ::
            nodes[i].signer.counter != nodes[j].signer.counter
            && nodes[i].signer.counter.host != nodes[j].signer.counter.host)
    }

    /** In every state a federation reaches, the cell's values authenticate versions 0, 1, 2, ... */
    lemma CellInOrder()
      requires Valid()
      ensures forall k: nat | k < |cell| :: Authentic(setup, cell[k], k)
    {
      hide Authentic, IsRunOfRounds, End;
      VersionsInOrder(setup, genesis, log);
      assert cell == End(setup, genesis, log).cell;
    }

    /** And each stands on a quorum of the federation's own nodes, by their signing logs. */
    lemma CellOnQuorum(k: nat) returns (q: set<nat>)
      requires Valid() && k < |cell|
      ensures Authentic(setup, cell[k], k) && |q| >= setup.committee.t
      ensures forall i <- q :: i < |nodes| && SignedIn(setup, cell[k], k, nodes[i].Log())
    {
      hide IsRunOfRounds, End, SignedIn, Start, Authentic;
      q := PublishedOnQuorum(setup, genesis, log, k);
      forall i | i in q
        ensures i < |nodes| && SignedIn(setup, cell[k], k, nodes[i].Log())
      {
        assert NodeOk(nodes[i], i);
      }
    }

    /** What `current_record` returns, should it see the cell as it was after `read` publications. */
    function Current(read: Option<nat>): Option<Bytes>
      reads this
    {
      if read.Some? && read.value < |cell| then Some(cell[read.value]) else None
    }

    ghost predicate IsRound(r: nat, proposal: Proposal)
      reads this
    {
      r < |net.rounds| && net.rounds[r].version == proposal.version && net.rounds[r].list == proposal.list
    }

    /** Logs steps already known to be possible. */
    ghost method Advance(steps: seq<Step>)
      requires Start(setup, genesis) && IsRunOfRounds(setup, genesis, log) && net == End(setup, genesis, log)
      requires |setup.envs| == |net.members| && IsRunOfRounds(setup, net, steps)
      modifies `net, `log
      ensures IsRunOfRounds(setup, genesis, log) && net == End(setup, genesis, log)
      ensures log == old(log) + steps && net == End(setup, old(net), steps)
    {
      ConcatenateRounds(setup, genesis, log, steps);
      log := log + steps;
      net := End(setup, net, steps);
    }

    /** An aggregator begins a round, on any version and list. */
    ghost method Propose(proposal: Proposal) returns (r: nat)
      requires Valid() && Ssz.AllOfSize(proposal.list, ENTRY_BYTES)
      modifies `net, `log
      ensures Valid() && old(log) <= log && IsRound(r, proposal)
      ensures net == old(net).(rounds := old(net).rounds + [Round(proposal.version, proposal.list, [], false)])
    {
      hide Start, RoundOk;
      var step := StartRound(proposal.version, proposal.list);
      OneStep(setup, net, step);
      r := |net.rounds|;
      Advance([step]);
    }

    /** Member `i` answers the proposal of round `r`, or abstains. */
    method Ask(i: nat, ghost r: nat, proposal: Proposal, read: Option<nat>, fate: SlotCounter.PersistFate,
               signature: Option<Bytes>)
      returns (reply: Result<Bytes, Abstention>)
      requires Valid() && i < |nodes| && IsRound(r, proposal)
      requires var counter := nodes[i].signer.counter; SlotProtocol.Torn(counter.host.env, fate.torn, counter.State())
      modifies `net, `log, nodes[i].signer.counter, nodes[i].signer.counter.host
      ensures Valid() && old(log) <= log && cell == old(cell)
      ensures reply.Ok? ==> (i, r) in net.answered
      ensures net.rounds == old(net.rounds)
    {
      hide Start, IsRunOfRounds, End, SlotProtocol.IsRun, SlotProtocol.After, SlotProtocol.Contracted,
        SlotProtocol.Torn, SlotProtocol.Lawful, SlotCounter.SignerNode.Spent, Message, Policy,
        Decoded, NextVersion;
      ghost var host := nodes[i].signer.counter.host;
      ghost var before := host.log;
      assert NodeOk(nodes[i], i) && host.world == SlotProtocol.After(host.env, host.genesis, before);
      reply := nodes[i].OnProposal(Current(read), proposal, fate, signature);
      if reply.Ok? {
        PolicyExactly(setup.committee, setup.form, Current(read), proposal.version,
                      setup.committee.genesis + proposal.version);
      }
      assert Answered(setup, net, i, r, read, host.world);
      ghost var steps := LoggedCallIsRun(setup, net, i, r, read, host.genesis, before, host.log);
      Advance(steps);
    }

    /** A reply reaches the aggregator of round `r`; one that verifies is the member's own answer. */
    ghost method Arrives(r: nat, pair: Pair<Bytes>)
      requires Valid() && CanStep(setup, net, Arrive(r, pair))
      modifies `net, `log
      ensures Valid() && old(log) <= log && net == Do(setup, old(net), Arrive(r, pair))
    {
      hide Start;
      OneStep(setup, net, Arrive(r, pair));
      Advance([Arrive(r, pair)]);
    }

    /** Node `j` serves a request whose round, if it comes to one, is round `r`. */
    method Serve(j: nat, ghost r: nat, request: Request, read: Option<nat>, arrivals: SignedPairs, publishOk: bool)
      returns (o: CommitteeNode.Outcome)
      requires Valid() && j < |nodes| && EntrySized(request)
      requires r < |net.rounds| && !net.rounds[r].published && net.rounds[r].arrivals == arrivals
      requires var version := NextVersion(setup.form, Current(read));
        var edit := Edited(ListOf(setup.form, Current(read)), request);
        version.Ok? && edit.Changed? ==> IsRound(r, Proposal(version.value, edit.list))
      modifies this, nodes[j]
      ensures Valid() && old(log) <= log
      ensures cell == old(cell) + if o.PublishedAs? then [o.bytes] else []
    {
      hide Start, IsRunOfRounds, End, Message, Record, Decoded, Verdict, Counted, Edited, Coherent, IdealProver;
      ArrivalsSized(setup, genesis, log, r);
      assert NodeOk(nodes[j], j);
      o := nodes[j].OnStatusRequest(Current(read), request, arrivals, publishOk);
      if o.PublishedAs? {
        OneStep(setup, net, Publish(r));
        Advance([Publish(r)]);
        cell := cell + [o.bytes];
      }
    }
  }

  lemma ArrivalsSized(s: Setup, net: Net, log: seq<Step>, r: nat)
    requires Start(s, net) && IsRunOfRounds(s, net, log) && r < |End(s, net, log).rounds|
    ensures Coherent(s.crypto.hashes.sha3, s.committee)
    ensures (s.form.SnarkForm? ==> IdealProver(s.crypto, s.committee, s.prover))
    ensures var arrivals := End(s, net, log).rounds[r].arrivals;
      && Distinct(Indices(arrivals))
      && forall p <- arrivals :: p.index < |s.committee.members| && |p.signature| == SIGNATURE_BYTES
  {
    hide IsRunOfRounds, End, LedgerOk, PublishedOk, SlotProtocol.Inv;
    RunKeepsOrder(s, net, log);
    var net' := End(s, net, log);
    assert RoundOk(s, net', r);
    forall p | p in net'.rounds[r].arrivals
      ensures p.index < |s.committee.members| && |p.signature| == SIGNATURE_BYTES
    {
      assert ArrivalOk(s, net', r, p);
    }
  }
}
