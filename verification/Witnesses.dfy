/**
 Runs that show what the hypotheses of the results over runs are for: a genesis block, parents other
 than "0", heeding what insertBlock returns, one insertBlock at a time.
 */
module Witnesses {
  import opened Hex
  import opened Blocks
  import opened Chain
  import opened ChainDB
  import opened BlockchainService
  import opened TextMessages
  import opened Protocol
  import opened Validity
  import opened Agreement

  // A run given by the states it passes through.
  ghost predicate Trace(c: Crypto, states: seq<System>, steps: seq<Step>) {
    && |states| == |steps| + 1
    && forall i | 0 <= i < |steps| :: Leads(c, states[i], steps[i], states[i + 1])
  }

  ghost predicate Leads(c: Crypto, s: System, step: Step, s': System) {
    Enabled(c, s, step) && Apply(c, s, step) == s'
  }

  lemma {:induction false} TraceIsRun(c: Crypto, states: seq<System>, steps: seq<Step>)
    requires Trace(c, states, steps)
    ensures Legal(c, states[0], steps) && Final(c, states[0], steps) == states[|steps|]
    decreases |steps|
  {
    if steps != [] {
      assert Leads(c, states[0], steps[0], states[1]);
      forall i | 0 <= i < |steps[1..]| ensures Leads(c, states[1..][i], steps[1..][i], states[1..][i + 1]) {
        assert Leads(c, states[i + 1], steps[i + 1], states[i + 2]);
      }
      TraceIsRun(c, states[1..], steps[1..]);
    }
  }

  // Part by part: where a step leads.
  lemma Arrives(c: Crypto, s: System, step: Step, s': System)
    requires Enabled(c, s, step)
    requires s'.nodes == s.nodes[step.n := Moved(c, s, step)]
    requires s'.accepted == if step.Create? || step.Validate? then s.accepted + {(step.n, step.block)} else s.accepted
    requires s'.acks == if Acknowledges(s, step) then s.acks + {(step.n, s.nodes[step.n].server.block)} else s.acks
    requires s'.commits == s.commits + Committed(c, s, step)
    ensures Leads(c, s, step, s')
  {
    assert s.acks + {} == s.acks && s.accepted + {} == s.accepted;
  }

  function Alone(n: UserHost, node: NodeState, accepted: set<(UserHost, Block)>, acks: set<(UserHost, Block)>,
                 commits: seq<Commit>): System {
    System(map[n := node], accepted, acks, commits)
  }

  function Two(a: UserHost, x: NodeState, b: UserHost, y: NodeState, accepted: set<(UserHost, Block)>,
               acks: set<(UserHost, Block)>, commits: seq<Commit>): System {
    System(map[a := x, b := y], accepted, acks, commits)
  }

  function AtRest(t: Table): NodeState {
    NodeState(t, Idle, Free)
  }

  function Asks(t: Table, b: Block, q: UserHost): NodeState {
    NodeState(t, Broadcasting(b, [q], {}), Free)
  }

  function Heard(t: Table, b: Block, q: UserHost): NodeState {
    NodeState(t, Broadcasting(b, [], {} + {q}), Free)
  }

  function Looked(t: Table, b: Block, q: UserHost): NodeState {
    NodeState(t, Storing(b, {} + {q}), Free)
  }

  // ---------- Without a genesis block: two children of "0" in one chain ----------

  // Two self-consistent first blocks with different hashes, neither too far ahead of the clock.
  predicate TwoFirstBlocks(c: Crypto, x: Block, y: Block, now: UInt64) {
    && SingleValid(c, x) && SingleValid(c, y) && x.hash != y.hash
    && x.previousHash == NO_HASH && y.previousHash == NO_HASH
    && x.timestamp <= Horizon(now) && y.timestamp <= Horizon(now)
  }

  lemma SecondFits(x: Block, y: Block)
    requires x.previousHash == NO_HASH && x.hash != y.hash
    ensures Contents(EMPTY) == [] && RawInsert(EMPTY, y, 0) == (Appended(EMPTY, y), true)
    ensures RawInsert(Appended(EMPTY, y), x, 0) == (Appended(Appended(EMPTY, y), x), true)
  {
  }

  function ForkRun(n: UserHost, mine: Block, theirs: Block, now: UInt64): seq<Step> {
    [Create(n, mine), Validate(n, theirs, now), LookIncoming(n), InsertIncoming(n, 0), Begin(n, []), LookOwn(n),
     InsertOwn(n, 0)]
  }

  function ForkState(n: UserHost, mine: Block, theirs: Block, i: nat): System
    requires i <= 7
  {
    var one, took := Appended(EMPTY, theirs), {(n, mine)} + {(n, theirs)};
    var acks, holds := {(n, theirs)}, Holding(mine);
    if i == 0 then Alone(n, AtRest(EMPTY), {}, {}, [])
    else if i == 1 then Alone(n, NodeState(EMPTY, holds, Free), {(n, mine)}, {}, [])
    else if i == 2 then Alone(n, NodeState(EMPTY, holds, Accepted(theirs)), took, {}, [])
    else if i == 3 then Alone(n, NodeState(EMPTY, holds, Inserting(theirs)), took, {}, [])
    else if i == 4 then Alone(n, NodeState(one, holds, Free), took, acks, [])
    else if i == 5 then Alone(n, NodeState(one, Broadcasting(mine, [], {}), Free), took, acks, [])
    else if i == 6 then Alone(n, NodeState(one, Storing(mine, {}), Free), took, acks, [])
    else Alone(n, AtRest(Appended(one, mine)), took, acks, [Commit(mine, n, {n} + {})])
  }

  lemma ForkStep(c: Crypto, n: UserHost, mine: Block, theirs: Block, now: UInt64, i: nat)
    requires TwoFirstBlocks(c, mine, theirs, now) && i < 7
    ensures Leads(c, ForkState(n, mine, theirs, i), ForkRun(n, mine, theirs, now)[i], ForkState(n, mine, theirs, i + 1))
  {
    SecondFits(mine, theirs);
    Arrives(c, ForkState(n, mine, theirs, i), ForkRun(n, mine, theirs, now)[i], ForkState(n, mine, theirs, i + 1));
  }

  lemma ForkRunEnds(c: Crypto, n: UserHost, mine: Block, theirs: Block, now: UInt64)
    requires TwoFirstBlocks(c, mine, theirs, now)
    ensures var s, steps := ForkState(n, mine, theirs, 0), ForkRun(n, mine, theirs, now);
            Legal(c, s, steps) && Final(c, s, steps) == ForkState(n, mine, theirs, 7)
  {
    var states, steps := seq(8, i requires 0 <= i < 8 => ForkState(n, mine, theirs, i)), ForkRun(n, mine, theirs, now);
    forall i | 0 <= i < |steps| ensures Leads(c, states[i], steps[i], states[i + 1]) {
      ForkStep(c, n, mine, theirs, now, i);
    }
    TraceIsRun(c, states, steps);
  }

  lemma EmptyStart(c: Crypto, s: System)
    requires s.accepted == {} && s.acks == {} && s.commits == []
    requires forall n | n in s.nodes :: s.nodes[n] == AtRest(EMPTY)
    ensures Start(c, s) && AllValid(c, s)
  {
    assert Contents(EMPTY) == [];
  }

  lemma TwoFirstInARow(c: Crypto, x: Block, y: Block)
    requires y.previousHash == NO_HASH && SingleValid(c, x)
    ensures Contents(Appended(Appended(EMPTY, x), y)) == [x] + [y] && !ValidChain(c, [x] + [y])
  {
    ContentsAppended(EMPTY, x);
    ContentsAppended(Appended(EMPTY, x), y);
    Sha256Shape(c, Canonical(x));
    ValidAppend(c, [x], y);
  }

  // The guard on parents is off for "0": a node that offers its first block while it accepts another
  // ends with two blocks on "0", and its chain is no longer valid. The threads do not overlap in insertBlock.
  lemma EmptyChainForks(c: Crypto, n: UserHost, mine: Block, theirs: Block, now: UInt64)
    requires TwoFirstBlocks(c, mine, theirs, now)
    ensures var s, steps := ForkState(n, mine, theirs, 0), ForkRun(n, mine, theirs, now);
            && Start(c, s) && AllValid(c, s) && Legal(c, s, steps) && n in Final(c, s, steps).nodes
            && ChainOf(Final(c, s, steps), n) == [theirs] + [mine] && !ValidChain(c, [theirs] + [mine])
  {
    EmptyStart(c, ForkState(n, mine, theirs, 0));
    ForkRunEnds(c, n, mine, theirs, now);
    TwoFirstInARow(c, theirs, mine);
  }

  // ---------- On the parent "0" exclusivity fails ----------

  function CrossRun(a: UserHost, b: UserHost, x: Block, y: Block, now: UInt64): seq<Step> {
    [Create(a, x), Create(b, y), Begin(a, [b]), Begin(b, [a]), Validate(b, x, now), LookIncoming(b),
     InsertIncoming(b, 0), Validate(a, y, now), LookIncoming(a), InsertIncoming(a, 0), Hear(a), Hear(b), LookOwn(a),
     InsertOwn(a, 0), LookOwn(b), InsertOwn(b, 0)]
  }

  // The i-th state on the way.
  function CrossState(a: UserHost, b: UserHost, x: Block, y: Block, i: nat): System
    requires i <= 16
  {
    if i <= 4 then CrossMade(a, b, x, y, i)
    else if i <= 10 then CrossTaken(a, b, x, y, i)
    else CrossStored(a, b, x, y, i)
  }

  function CrossMade(a: UserHost, b: UserHost, x: Block, y: Block, i: nat): System {
    var madeA, madeB := NodeState(EMPTY, Holding(x), Free), NodeState(EMPTY, Holding(y), Free);
    var two := {(a, x)} + {(b, y)};
    if i == 0 then Two(a, AtRest(EMPTY), b, AtRest(EMPTY), {}, {}, [])
    else if i == 1 then Two(a, madeA, b, AtRest(EMPTY), {(a, x)}, {}, [])
    else if i == 2 then Two(a, madeA, b, madeB, two, {}, [])
    else if i == 3 then Two(a, Asks(EMPTY, x, b), b, madeB, two, {}, [])
    else Two(a, Asks(EMPTY, x, b), b, Asks(EMPTY, y, a), two, {}, [])
  }

  function CrossTaken(a: UserHost, b: UserHost, x: Block, y: Block, i: nat): System {
    var asksA, asksB := Asks(EMPTY, x, b), Asks(EMPTY, y, a);
    var hasB := Asks(Appended(EMPTY, x), y, a);
    var three := {(a, x)} + {(b, y)} + {(b, x)};
    var four := three + {(a, y)};
    if i == 5 then Two(a, asksA, b, asksB.(server := Accepted(x)), three, {}, [])
    else if i == 6 then Two(a, asksA, b, asksB.(server := Inserting(x)), three, {}, [])
    else if i == 7 then Two(a, asksA, b, hasB, three, {(b, x)}, [])
    else if i == 8 then Two(a, asksA.(server := Accepted(y)), b, hasB, four, {(b, x)}, [])
    else if i == 9 then Two(a, asksA.(server := Inserting(y)), b, hasB, four, {(b, x)}, [])
    else Two(a, Asks(Appended(EMPTY, y), x, b), b, hasB, four, {(b, x)} + {(a, y)}, [])
  }

  function CrossStored(a: UserHost, b: UserHost, x: Block, y: Block, i: nat): System {
    var tookA, tookB := Appended(EMPTY, y), Appended(EMPTY, x);
    var doneA, doneB := AtRest(Appended(tookA, x)), AtRest(Appended(tookB, y));
    var four, acks := {(a, x)} + {(b, y)} + {(b, x)} + {(a, y)}, {(b, x)} + {(a, y)};
    var commitA, commitB := Commit(x, a, {a} + ({} + {b})), Commit(y, b, {b} + ({} + {a}));
    if i == 11 then Two(a, Heard(tookA, x, b), b, Asks(tookB, y, a), four, acks, [])
    else if i == 12 then Two(a, Heard(tookA, x, b), b, Heard(tookB, y, a), four, acks, [])
    else if i == 13 then Two(a, Looked(tookA, x, b), b, Heard(tookB, y, a), four, acks, [])
    else if i == 14 then Two(a, doneA, b, Heard(tookB, y, a), four, acks, [commitA])
    else if i == 15 then Two(a, doneA, b, Looked(tookB, y, a), four, acks, [commitA])
    else Two(a, doneA, b, doneB, four, acks, [commitA] + [commitB])
  }

  lemma CrossMakes(c: Crypto, a: UserHost, b: UserHost, x: Block, y: Block, now: UInt64, i: nat)
    requires TwoFirstBlocks(c, x, y, now) && a != b && i < 4
    ensures Leads(c, CrossState(a, b, x, y, i), CrossRun(a, b, x, y, now)[i], CrossState(a, b, x, y, i + 1))
  {
    Arrives(c, CrossState(a, b, x, y, i), CrossRun(a, b, x, y, now)[i], CrossState(a, b, x, y, i + 1));
  }

  lemma CrossTakes(c: Crypto, a: UserHost, b: UserHost, x: Block, y: Block, now: UInt64, i: nat)
    requires TwoFirstBlocks(c, x, y, now) && a != b && 4 <= i < 7
    ensures Leads(c, CrossState(a, b, x, y, i), CrossRun(a, b, x, y, now)[i], CrossState(a, b, x, y, i + 1))
  {
    SecondFits(x, y);
    SecondFits(y, x);
    Arrives(c, CrossState(a, b, x, y, i), CrossRun(a, b, x, y, now)[i], CrossState(a, b, x, y, i + 1));
  }

  lemma CrossTakesToo(c: Crypto, a: UserHost, b: UserHost, x: Block, y: Block, now: UInt64, i: nat)
    requires TwoFirstBlocks(c, x, y, now) && a != b && 7 <= i < 10
    ensures Leads(c, CrossState(a, b, x, y, i), CrossRun(a, b, x, y, now)[i], CrossState(a, b, x, y, i + 1))
  {
    SecondFits(x, y);
    SecondFits(y, x);
    Arrives(c, CrossState(a, b, x, y, i), CrossRun(a, b, x, y, now)[i], CrossState(a, b, x, y, i + 1));
  }

  lemma CrossHears(c: Crypto, a: UserHost, b: UserHost, x: Block, y: Block, now: UInt64, i: nat)
    requires TwoFirstBlocks(c, x, y, now) && a != b && 10 <= i < 12
    ensures Leads(c, CrossState(a, b, x, y, i), CrossRun(a, b, x, y, now)[i], CrossState(a, b, x, y, i + 1))
  {
    assert [a][1..] == [] && [b][1..] == [];
    Arrives(c, CrossState(a, b, x, y, i), CrossRun(a, b, x, y, now)[i], CrossState(a, b, x, y, i + 1));
  }

  lemma CrossCommits(c: Crypto, a: UserHost, b: UserHost, x: Block, y: Block, now: UInt64, i: nat)
    requires TwoFirstBlocks(c, x, y, now) && a != b && 12 <= i < 14
    ensures Leads(c, CrossState(a, b, x, y, i), CrossRun(a, b, x, y, now)[i], CrossState(a, b, x, y, i + 1))
  {
    SecondFits(x, y);
    Arrives(c, CrossState(a, b, x, y, i), CrossRun(a, b, x, y, now)[i], CrossState(a, b, x, y, i + 1));
  }

  lemma CrossCommitsToo(c: Crypto, a: UserHost, b: UserHost, x: Block, y: Block, now: UInt64, i: nat)
    requires TwoFirstBlocks(c, x, y, now) && a != b && 14 <= i < 16
    ensures Leads(c, CrossState(a, b, x, y, i), CrossRun(a, b, x, y, now)[i], CrossState(a, b, x, y, i + 1))
  {
    SecondFits(y, x);
    Arrives(c, CrossState(a, b, x, y, i), CrossRun(a, b, x, y, now)[i], CrossState(a, b, x, y, i + 1));
  }

  lemma CrossRunEnds(c: Crypto, a: UserHost, b: UserHost, x: Block, y: Block, now: UInt64)
    requires TwoFirstBlocks(c, x, y, now) && a != b
    ensures var s, steps := CrossState(a, b, x, y, 0), CrossRun(a, b, x, y, now);
            Legal(c, s, steps) && Final(c, s, steps) == CrossState(a, b, x, y, 16)
  {
    var states, steps := seq(17, i requires 0 <= i < 17 => CrossState(a, b, x, y, i)), CrossRun(a, b, x, y, now);
    forall i | 0 <= i < |steps| ensures Leads(c, states[i], steps[i], states[i + 1]) {
      if i < 4 { CrossMakes(c, a, b, x, y, now, i); }
      else if i < 7 { CrossTakes(c, a, b, x, y, now, i); }
      else if i < 10 { CrossTakesToo(c, a, b, x, y, now, i); }
      else if i < 12 { CrossHears(c, a, b, x, y, now, i); }
      else if i < 14 { CrossCommits(c, a, b, x, y, now, i); }
      else { CrossCommitsToo(c, a, b, x, y, now, i); }
    }
    TraceIsRun(c, states, steps);
  }

  // Two empty nodes that each make a block, accept the other's and finish both commit, each in the
  // other's audience.
  lemma BothCommitOnZero(c: Crypto, a: UserHost, b: UserHost, x: Block, y: Block, now: UInt64)
    requires TwoFirstBlocks(c, x, y, now) && a != b
    ensures var s, steps := CrossState(a, b, x, y, 0), CrossRun(a, b, x, y, now);
            && Start(c, s) && AllValid(c, s) && Legal(c, s, steps)
            && Final(c, s, steps).commits == [Commit(x, a, {a, b}), Commit(y, b, {b, a})]
  {
    EmptyStart(c, CrossState(a, b, x, y, 0));
    CrossRunEnds(c, a, b, x, y, now);
    assert {a} + ({} + {b}) == {a, b} && {b} + ({} + {a}) == {b, a};
  }

  // ---------- A server that ignores what insertBlock returned ----------

  // Two new blocks for the tip of one valid, non-empty chain.
  predicate TwoOnTip(c: Crypto, t: Table, x: Block, y: Block, now: UInt64) {
    && WellFormed(t) && Contents(t) != [] && ValidChain(c, Contents(t)) && x.hash != y.hash
    && IncomingAccepts(c, Contents(t), x, now) && IncomingAccepts(c, Contents(t), y, now)
  }

  lemma OnTipInserts(c: Crypto, t: Table, x: Block, y: Block, now: UInt64)
    requires TwoOnTip(c, t, x, y, now)
    ensures !ChildRefused(t, x) && !ChildRefused(t, y) && ChildRefused(Appended(t, y), x)
    ensures RawInsert(t, x, 0) == (Appended(t, x), true) && RawInsert(t, y, 0) == (Appended(t, y), true)
    ensures RawInsert(Appended(t, x), y, 0) == (Appended(Appended(t, x), y), true)
  {
    var bs := Contents(t);
    TipHasNoChild(c, t, x);
    TipHasNoChild(c, t, y);
    ContentsAppended(t, x);
    ContentsAppended(t, y);
    assert (bs + [y])[|bs|].previousHash == x.previousHash;
    ValidParent(c, bs, |bs| - 1);
  }

  function LateRun(a: UserHost, q: UserHost, x: Block, y: Block, now: UInt64): seq<Step> {
    [Create(a, x), Begin(a, [q]), Create(q, y), Begin(q, []), Validate(q, x, now), LookOwn(q), InsertOwn(q, 0),
     LookIncoming(q), Hear(a), LookOwn(a), InsertOwn(a, 0)]
  }

  function LateState(t: Table, a: UserHost, q: UserHost, x: Block, y: Block, i: nat): System
    requires i <= 11
  {
    if i <= 5 then LateMade(t, a, q, x, y, i) else LateStored(t, a, q, x, y, i)
  }

  function LateMade(t: Table, a: UserHost, q: UserHost, x: Block, y: Block, i: nat): System {
    var asks, alone := Asks(t, x, q), Broadcasting(y, [], {});
    var one, two := {(a, x)}, {(a, x)} + {(q, y)};
    if i == 0 then Two(a, AtRest(t), q, AtRest(t), {}, {}, [])
    else if i == 1 then Two(a, NodeState(t, Holding(x), Free), q, AtRest(t), one, {}, [])
    else if i == 2 then Two(a, asks, q, AtRest(t), one, {}, [])
    else if i == 3 then Two(a, asks, q, NodeState(t, Holding(y), Free), two, {}, [])
    else if i == 4 then Two(a, asks, q, NodeState(t, alone, Free), two, {}, [])
    else Two(a, asks, q, NodeState(t, alone, Accepted(x)), two + {(q, x)}, {}, [])
  }

  function LateStored(t: Table, a: UserHost, q: UserHost, x: Block, y: Block, i: nat): System {
    var asks, has := Asks(t, x, q), Appended(t, y);
    var three, acks := {(a, x)} + {(q, y)} + {(q, x)}, {(q, x)};
    var first, second := Commit(y, q, {q} + {}), Commit(x, a, {a} + ({} + {q}));
    if i == 6 then Two(a, asks, q, NodeState(t, Storing(y, {}), Accepted(x)), three, {}, [])
    else if i == 7 then Two(a, asks, q, NodeState(has, Idle, Accepted(x)), three, {}, [first])
    else if i == 8 then Two(a, asks, q, AtRest(has), three, acks, [first])
    else if i == 9 then Two(a, Heard(t, x, q), q, AtRest(has), three, acks, [first])
    else if i == 10 then Two(a, Looked(t, x, q), q, AtRest(has), three, acks, [first])
    else Two(a, AtRest(Appended(t, x)), q, AtRest(has), three, acks, [first] + [second])
  }

  lemma LateMakes(c: Crypto, t: Table, a: UserHost, q: UserHost, x: Block, y: Block, now: UInt64, i: nat)
    requires TwoOnTip(c, t, x, y, now) && a != q && i < 3
    ensures Leads(c, LateState(t, a, q, x, y, i), LateRun(a, q, x, y, now)[i], LateState(t, a, q, x, y, i + 1))
  {
    Arrives(c, LateState(t, a, q, x, y, i), LateRun(a, q, x, y, now)[i], LateState(t, a, q, x, y, i + 1));
  }

  lemma LateChecks(c: Crypto, t: Table, a: UserHost, q: UserHost, x: Block, y: Block, now: UInt64, i: nat)
    requires TwoOnTip(c, t, x, y, now) && a != q && 3 <= i < 5
    ensures Leads(c, LateState(t, a, q, x, y, i), LateRun(a, q, x, y, now)[i], LateState(t, a, q, x, y, i + 1))
  {
    Arrives(c, LateState(t, a, q, x, y, i), LateRun(a, q, x, y, now)[i], LateState(t, a, q, x, y, i + 1));
  }

  lemma LateStores(c: Crypto, t: Table, a: UserHost, q: UserHost, x: Block, y: Block, now: UInt64, i: nat)
    requires TwoOnTip(c, t, x, y, now) && a != q && 5 <= i < 8
    ensures Leads(c, LateState(t, a, q, x, y, i), LateRun(a, q, x, y, now)[i], LateState(t, a, q, x, y, i + 1))
  {
    OnTipInserts(c, t, x, y, now);
    Arrives(c, LateState(t, a, q, x, y, i), LateRun(a, q, x, y, now)[i], LateState(t, a, q, x, y, i + 1));
  }

  lemma LateAcks(c: Crypto, t: Table, a: UserHost, q: UserHost, x: Block, y: Block, now: UInt64, i: nat)
    requires TwoOnTip(c, t, x, y, now) && a != q && 8 <= i < 10
    ensures Leads(c, LateState(t, a, q, x, y, i), LateRun(a, q, x, y, now)[i], LateState(t, a, q, x, y, i + 1))
  {
    OnTipInserts(c, t, x, y, now);
    assert [q][1..] == [];
    Arrives(c, LateState(t, a, q, x, y, i), LateRun(a, q, x, y, now)[i], LateState(t, a, q, x, y, i + 1));
  }

  lemma LateEnds(c: Crypto, t: Table, a: UserHost, q: UserHost, x: Block, y: Block, now: UInt64, i: nat)
    requires TwoOnTip(c, t, x, y, now) && a != q && i == 10
    ensures Leads(c, LateState(t, a, q, x, y, i), LateRun(a, q, x, y, now)[i], LateState(t, a, q, x, y, i + 1))
  {
    OnTipInserts(c, t, x, y, now);
    Arrives(c, LateState(t, a, q, x, y, i), LateRun(a, q, x, y, now)[i], LateState(t, a, q, x, y, i + 1));
  }

  lemma LateRunEnds(c: Crypto, t: Table, a: UserHost, q: UserHost, x: Block, y: Block, now: UInt64)
    requires TwoOnTip(c, t, x, y, now) && a != q
    ensures var s, steps := LateState(t, a, q, x, y, 0), LateRun(a, q, x, y, now);
            Legal(c, s, steps) && Final(c, s, steps) == LateState(t, a, q, x, y, 11)
  {
    var states := seq(12, i requires 0 <= i < 12 => LateState(t, a, q, x, y, i));
    var steps := LateRun(a, q, x, y, now);
    forall i | 0 <= i < |steps| ensures Leads(c, states[i], steps[i], states[i + 1]) {
      if i < 3 { LateMakes(c, t, a, q, x, y, now, i); }
      else if i < 5 { LateChecks(c, t, a, q, x, y, now, i); }
      else if i < 8 { LateStores(c, t, a, q, x, y, now, i); }
      else if i < 10 { LateAcks(c, t, a, q, x, y, now, i); }
      else { LateEnds(c, t, a, q, x, y, now, i); }
    }
    TraceIsRun(c, states, steps);
  }

  lemma StartFrom(c: Crypto, s: System, t: Table)
    requires WellFormed(t) && ValidChain(c, Contents(t)) && Contents(t) != []
    requires s.accepted == {} && s.acks == {} && s.commits == []
    requires forall n | n in s.nodes :: s.nodes[n] == AtRest(t)
    ensures Start(c, s) && AllValid(c, s) && NonEmpty(s)
  {
    ValidIsSound(c, Contents(t));
  }

  lemma NotOneLine(bs: seq<Block>, x: Block, y: Block)
    requires !HasHash(bs, x.hash) && !HasHash(bs, y.hash) && x.hash != y.hash
    ensures x !in bs + [y] && !OneLine(bs + [x], x, bs + [y], y)
  {
    var xs, ys := bs + [x], bs + [y];
    forall i: nat, j: nat | i < |xs| && j < |ys| && xs[i] == x && ys[j] == y ensures !AgreeUpTo(xs, ys, i, j) {
      assert i == |bs| && j == |bs|;
      assert xs[|bs|].hash != ys[|bs|].hash;
    }
  }

  lemma LateEnd(c: Crypto, t: Table, a: UserHost, q: UserHost, x: Block, y: Block, now: UInt64)
    requires TwoOnTip(c, t, x, y, now) && a != q
    ensures var s := LateState(t, a, q, x, y, 11);
            && s.commits == [Commit(y, q, {q}), Commit(x, a, {a, q})] && s.nodes.Keys == {a, q} && AllValid(c, s)
            && x !in ChainOf(s, q) && !OneLine(ChainOf(s, a), x, ChainOf(s, q), y)
  {
    ContentsAppended(t, x);
    ContentsAppended(t, y);
    ValidAppend(c, Contents(t), x);
    ValidAppend(c, Contents(t), y);
    NotOneLine(Contents(t), x, y);
    assert {a} + ({} + {q}) == {a, q} && {q} + {} == {q};
  }

  // A node validates a block, stores its own first, and acknowledges the one it validated: both sends
  // commit, the node is in both audiences and does not have the other's block, and the two chains part,
  // all of them valid.
  lemma LateInsertSplits(c: Crypto, t: Table, a: UserHost, q: UserHost, x: Block, y: Block, now: UInt64)
    requires TwoOnTip(c, t, x, y, now) && a != q
    ensures var s, steps := LateState(t, a, q, x, y, 0), LateRun(a, q, x, y, now);
            && Start(c, s) && AllValid(c, s) && Legal(c, s, steps)
            && var s' := Final(c, s, steps);
               && s'.commits == [Commit(y, q, {q}), Commit(x, a, {a, q})] && s'.nodes.Keys == {a, q} && AllValid(c, s')
               && x !in ChainOf(s', q) && !OneLine(ChainOf(s', a), x, ChainOf(s', q), y)
  {
    StartFrom(c, LateState(t, a, q, x, y, 0), t);
    LateRunEnds(c, t, a, q, x, y, now);
    LateEnd(c, t, a, q, x, y, now);
  }

  // ---------- Two overlapping calls of insertBlock on one node fork its chain ----------

  function OverlapRun(n: UserHost, x: Block, y: Block, now: UInt64): seq<Step> {
    [Create(n, x), Begin(n, []), Validate(n, y, now), LookOwn(n), LookIncoming(n), InsertOwn(n, 0),
     InsertIncoming(n, 0)]
  }

  function OverlapState(t: Table, n: UserHost, x: Block, y: Block, i: nat): System
    requires i <= 7
  {
    var sending, storing := Broadcasting(x, [], {}), Storing(x, {});
    var one, two := {(n, x)}, {(n, x)} + {(n, y)};
    var stored := [Commit(x, n, {n} + {})];
    if i == 0 then Alone(n, AtRest(t), {}, {}, [])
    else if i == 1 then Alone(n, NodeState(t, Holding(x), Free), one, {}, [])
    else if i == 2 then Alone(n, NodeState(t, sending, Free), one, {}, [])
    else if i == 3 then Alone(n, NodeState(t, sending, Accepted(y)), two, {}, [])
    else if i == 4 then Alone(n, NodeState(t, storing, Accepted(y)), two, {}, [])
    else if i == 5 then Alone(n, NodeState(t, storing, Inserting(y)), two, {}, [])
    else if i == 6 then Alone(n, NodeState(Appended(t, x), Idle, Inserting(y)), two, {}, stored)
    else Alone(n, AtRest(Appended(Appended(t, x), y)), two, {(n, y)}, stored)
  }

  lemma OverlapLooks(c: Crypto, t: Table, n: UserHost, x: Block, y: Block, now: UInt64, i: nat)
    requires TwoOnTip(c, t, x, y, now) && i < 5
    ensures Leads(c, OverlapState(t, n, x, y, i), OverlapRun(n, x, y, now)[i], OverlapState(t, n, x, y, i + 1))
  {
    OnTipInserts(c, t, x, y, now);
    Arrives(c, OverlapState(t, n, x, y, i), OverlapRun(n, x, y, now)[i], OverlapState(t, n, x, y, i + 1));
  }

  lemma OverlapInserts(c: Crypto, t: Table, n: UserHost, x: Block, y: Block, now: UInt64, i: nat)
    requires TwoOnTip(c, t, x, y, now) && 5 <= i < 7
    ensures Leads(c, OverlapState(t, n, x, y, i), OverlapRun(n, x, y, now)[i], OverlapState(t, n, x, y, i + 1))
  {
    OnTipInserts(c, t, x, y, now);
    Arrives(c, OverlapState(t, n, x, y, i), OverlapRun(n, x, y, now)[i], OverlapState(t, n, x, y, i + 1));
  }

  lemma OverlapRunEnds(c: Crypto, t: Table, n: UserHost, x: Block, y: Block, now: UInt64)
    requires TwoOnTip(c, t, x, y, now)
    ensures var s, steps := OverlapState(t, n, x, y, 0), OverlapRun(n, x, y, now);
            Legal(c, s, steps) && Final(c, s, steps) == OverlapState(t, n, x, y, 7)
  {
    var states, steps := seq(8, i requires 0 <= i < 8 => OverlapState(t, n, x, y, i)), OverlapRun(n, x, y, now);
    forall i | 0 <= i < |steps| ensures Leads(c, states[i], steps[i], states[i + 1]) {
      if i < 5 { OverlapLooks(c, t, n, x, y, now, i); } else { OverlapInserts(c, t, n, x, y, now, i); }
    }
    TraceIsRun(c, states, steps);
  }

  // Both threads look for a child of the tip before either inserts: both blocks go in.
  lemma OverlapForks(c: Crypto, t: Table, n: UserHost, x: Block, y: Block, now: UInt64)
    requires TwoOnTip(c, t, x, y, now)
    ensures var s, steps := OverlapState(t, n, x, y, 0), OverlapRun(n, x, y, now);
            && Start(c, s) && AllValid(c, s) && NonEmpty(s) && Legal(c, s, steps)
            && var s' := Final(c, s, steps);
               n in s'.nodes && ChainOf(s', n) == Contents(t) + [x] + [y] && !ValidChain(c, ChainOf(s', n))
  {
    StartFrom(c, OverlapState(t, n, x, y, 0), t);
    OverlapRunEnds(c, t, n, x, y, now);
    OverlapChain(c, t, x, y, now);
  }

  lemma OverlapChain(c: Crypto, t: Table, x: Block, y: Block, now: UInt64)
    requires TwoOnTip(c, t, x, y, now)
    ensures var bs := Contents(t) + [x] + [y]; Contents(Appended(Appended(t, x), y)) == bs && !ValidChain(c, bs)
  {
    ContentsAppended(t, x);
    ContentsAppended(Appended(t, x), y);
    ValidAppend(c, Contents(t) + [x], y);
    assert Contents(t)[|Contents(t)| - 1].hash == y.previousHash;
  }

  // ---------- A fork lets diverged nodes agree again ----------

  function HealRun(p: UserHost, q: UserHost, w: Block, z: Block, now: UInt64): seq<Step> {
    [Validate(p, z, now), LookIncoming(p), InsertIncoming(p, 0), Create(q, w), Begin(q, []), Validate(q, z, now),
     LookOwn(q), LookIncoming(q), InsertOwn(q, 0), InsertIncoming(q, 0)]
  }

  function HealState(t: Table, p: UserHost, q: UserHost, w: Block, z: Block, i: nat): System
    requires i <= 10
  {
    if i <= 3 then HealTaken(t, p, q, z, i) else HealForked(t, p, q, w, z, i)
  }

  function HealTaken(t: Table, p: UserHost, q: UserHost, z: Block, i: nat): System {
    if i == 0 then Two(p, AtRest(t), q, AtRest(t), {}, {}, [])
    else if i == 1 then Two(p, NodeState(t, Idle, Accepted(z)), q, AtRest(t), {(p, z)}, {}, [])
    else if i == 2 then Two(p, NodeState(t, Idle, Inserting(z)), q, AtRest(t), {(p, z)}, {}, [])
    else Two(p, AtRest(Appended(t, z)), q, AtRest(t), {(p, z)}, {(p, z)}, [])
  }

  function HealForked(t: Table, p: UserHost, q: UserHost, w: Block, z: Block, i: nat): System {
    var has, one := AtRest(Appended(t, z)), {(p, z)};
    var two := {(p, z)} + {(q, w)};
    var three := two + {(q, z)};
    var sending, storing := Broadcasting(w, [], {}), Storing(w, {});
    var stored := [Commit(w, q, {q} + {})];
    if i == 4 then Two(p, has, q, NodeState(t, Holding(w), Free), two, one, [])
    else if i == 5 then Two(p, has, q, NodeState(t, sending, Free), two, one, [])
    else if i == 6 then Two(p, has, q, NodeState(t, sending, Accepted(z)), three, one, [])
    else if i == 7 then Two(p, has, q, NodeState(t, storing, Accepted(z)), three, one, [])
    else if i == 8 then Two(p, has, q, NodeState(t, storing, Inserting(z)), three, one, [])
    else if i == 9 then Two(p, has, q, NodeState(Appended(t, w), Idle, Inserting(z)), three, one, stored)
    else Two(p, has, q, AtRest(Appended(Appended(t, w), z)), three, one + {(q, z)}, stored)
  }

  lemma HealTakes(c: Crypto, t: Table, p: UserHost, q: UserHost, w: Block, z: Block, now: UInt64, i: nat)
    requires TwoOnTip(c, t, w, z, now) && p != q && i < 3
    ensures Leads(c, HealState(t, p, q, w, z, i), HealRun(p, q, w, z, now)[i], HealState(t, p, q, w, z, i + 1))
  {
    OnTipInserts(c, t, w, z, now);
    Arrives(c, HealState(t, p, q, w, z, i), HealRun(p, q, w, z, now)[i], HealState(t, p, q, w, z, i + 1));
  }

  lemma HealMakes(c: Crypto, t: Table, p: UserHost, q: UserHost, w: Block, z: Block, now: UInt64, i: nat)
    requires TwoOnTip(c, t, w, z, now) && p != q && 3 <= i < 6
    ensures Leads(c, HealState(t, p, q, w, z, i), HealRun(p, q, w, z, now)[i], HealState(t, p, q, w, z, i + 1))
  {
    OnTipInserts(c, t, w, z, now);
    Arrives(c, HealState(t, p, q, w, z, i), HealRun(p, q, w, z, now)[i], HealState(t, p, q, w, z, i + 1));
  }

  lemma HealLooks(c: Crypto, t: Table, p: UserHost, q: UserHost, w: Block, z: Block, now: UInt64, i: nat)
    requires TwoOnTip(c, t, w, z, now) && p != q && 6 <= i < 8
    ensures Leads(c, HealState(t, p, q, w, z, i), HealRun(p, q, w, z, now)[i], HealState(t, p, q, w, z, i + 1))
  {
    OnTipInserts(c, t, w, z, now);
    Arrives(c, HealState(t, p, q, w, z, i), HealRun(p, q, w, z, now)[i], HealState(t, p, q, w, z, i + 1));
  }

  lemma HealInserts(c: Crypto, t: Table, p: UserHost, q: UserHost, w: Block, z: Block, now: UInt64, i: nat)
    requires TwoOnTip(c, t, w, z, now) && p != q && 8 <= i < 10
    ensures Leads(c, HealState(t, p, q, w, z, i), HealRun(p, q, w, z, now)[i], HealState(t, p, q, w, z, i + 1))
  {
    OnTipInserts(c, t, w, z, now);
    Arrives(c, HealState(t, p, q, w, z, i), HealRun(p, q, w, z, now)[i], HealState(t, p, q, w, z, i + 1));
  }

  lemma HealRunEnds(c: Crypto, t: Table, p: UserHost, q: UserHost, w: Block, z: Block, now: UInt64)
    requires TwoOnTip(c, t, w, z, now) && p != q
    ensures var s, steps := HealState(t, p, q, w, z, 0), HealRun(p, q, w, z, now);
            Legal(c, s, steps) && Final(c, s, steps) == HealState(t, p, q, w, z, 10)
  {
    var states, steps := seq(11, i requires 0 <= i < 11 => HealState(t, p, q, w, z, i)), HealRun(p, q, w, z, now);
    forall i | 0 <= i < |steps| ensures Leads(c, states[i], steps[i], states[i + 1]) {
      if i < 3 { HealTakes(c, t, p, q, w, z, now, i); }
      else if i < 6 { HealMakes(c, t, p, q, w, z, now, i); }
      else if i < 8 { HealLooks(c, t, p, q, w, z, now, i); }
      else { HealInserts(c, t, p, q, w, z, now, i); }
    }
    TraceIsRun(c, states, steps);
  }

  // A block on z, which is the tip of both nodes now although they differ right below it.
  predicate OnBoth(c: Crypto, t: Table, w: Block, z: Block, b: Block, now: UInt64) {
    && IncomingAccepts(c, Contents(t) + [z], b, now)
    && IncomingAccepts(c, Contents(t) + [w] + [z], b, now)
  }

  lemma BothValidate(c: Crypto, s: System, p: UserHost, q: UserHost, b: Block, now: UInt64)
    requires p != q && p in s.nodes && q in s.nodes && s.nodes[p].server.Free? && s.nodes[q].server.Free?
    requires IncomingAccepts(c, ChainOf(s, p), b, now) && IncomingAccepts(c, ChainOf(s, q), b, now)
    ensures var steps := [Validate(p, b, now)] + [Validate(q, b, now)];
            Legal(c, s, steps) && (p, b) in Final(c, s, steps).accepted && (q, b) in Final(c, s, steps).accepted
  {
    var steps := [Validate(p, b, now)] + [Validate(q, b, now)];
    var s1 := Apply(c, s, Validate(p, b, now));
    assert s1.nodes[q] == s.nodes[q];
    var s2 := Apply(c, s1, Validate(q, b, now));
    assert steps[1..] == [Validate(q, b, now)] && steps[1..][1..] == [];
    assert Final(c, s, steps) == Final(c, s1, steps[1..]) == s2;
    assert (p, b) in s1.accepted && s1.accepted <= s2.accepted;
  }

  // Divergence is permanent where chains stay valid. A node that forks can store a diverged node's tip
  // behind its own block, and then both take the next block, although their chains differ below.
  lemma ForkHealsDivergence(c: Crypto, t: Table, p: UserHost, q: UserHost, w: Block, z: Block, b: Block, now: UInt64)
    requires TwoOnTip(c, t, w, z, now) && p != q && OnBoth(c, t, w, z, b, now) && b != z && b != w
    ensures var s0, before := HealState(t, p, q, w, z, 0), HealRun(p, q, w, z, now);
            && Start(c, s0) && AllValid(c, s0) && Legal(c, s0, before)
            && var s, after := Final(c, s0, before), [Validate(p, b, now)] + [Validate(q, b, now)];
               && Legal(c, s, after) && Diverged(s, p, q, |Contents(t)|)
               && (p, b) !in s.accepted && (q, b) !in s.accepted
               && (p, b) in Final(c, s, after).accepted && (q, b) in Final(c, s, after).accepted
  {
    StartFrom(c, HealState(t, p, q, w, z, 0), t);
    HealRunEnds(c, t, p, q, w, z, now);
    Healed(c, t, p, q, w, z, b, now);
    BothValidate(c, HealState(t, p, q, w, z, 10), p, q, b, now);
  }

  lemma Healed(c: Crypto, t: Table, p: UserHost, q: UserHost, w: Block, z: Block, b: Block, now: UInt64)
    requires TwoOnTip(c, t, w, z, now) && p != q && OnBoth(c, t, w, z, b, now) && b != z && b != w
    ensures var s := HealState(t, p, q, w, z, 10);
            && Diverged(s, p, q, |Contents(t)|) && s.nodes[p].server.Free? && s.nodes[q].server.Free?
            && IncomingAccepts(c, ChainOf(s, p), b, now) && IncomingAccepts(c, ChainOf(s, q), b, now)
            && (p, b) !in s.accepted && (q, b) !in s.accepted
  {
    var bs := Contents(t);
    ContentsAppended(t, z);
    ContentsAppended(t, w);
    ContentsAppended(Appended(t, w), z);
    assert (bs + [z])[|bs|] == z && (bs + [w] + [z])[|bs|] == w;
  }

  // ---------- Such blocks exist ----------

  function Note(timestamp: UInt64): TextMessage {
    var peer := UserPeer(UserHost("", 0), "key");
    TextMessage("", peer, peer, timestamp, "", "")
  }

  // A lawful scheme with a key pair whose digest tells texts of different lengths (modulo 256) apart.
  ghost predicate Telling(c: Crypto) {
    && Lawful(c) && c.paired("key", "key")
    && forall x, y :: Apart(c, x, y)
  }

  predicate Apart(c: Crypto, x: string, y: string) {
    |x| % 256 != |y| % 256 ==> Sha256(c, x) != Sha256(c, y)
  }

  lemma ToyTells()
    ensures Telling(TOY_CRYPTO)
  {
    LawsAreConsistent();
    forall x: string, y: string ensures Apart(TOY_CRYPTO, x, y) {
      if |x| % 256 != |y| % 256 {
        assert TOY_CRYPTO.digest(x)[0] != TOY_CRYPTO.digest(y)[0];
        HexRoundTrip(TOY_CRYPTO.digest(x));
        HexRoundTrip(TOY_CRYPTO.digest(y));
      }
    }
  }

  // A self-consistent block with this parent and not too late.
  predicate On(c: Crypto, b: Block, parent: string) {
    SingleValid(c, b) && b.previousHash == parent && b.timestamp <= Horizon(0)
  }

  lemma Make(c: Crypto, tipHash: string, timestamp: UInt64, digits: nat) returns (b: Block, text: string)
    requires Lawful(c) && c.paired("key", "key") && timestamp <= FIVE_MINUTES && |Decimal(timestamp)| == digits
    ensures On(c, b, tipHash) && b.hash == Sha256(c, text) && |text| == |tipHash| + 70 + digits
    ensures |b.hash| == 64
  {
    b := NewBlock(c, tipHash, Note(timestamp), "key");
    text := Canonical(b);
    NewBlockValid(c, tipHash, Note(timestamp), "key");
    Sha256Shape(c, UpToNul(""));
    Sha256Shape(c, text);
    assert |b.payloadHash| == 64 && |b.authorPublicKey| == 3;
  }

  // Two blocks on "0", two on the first of these, one on the second of those.
  lemma SomeBlocks(c: Crypto) returns (g: Block, g': Block, x: Block, y: Block, b: Block)
    requires Telling(c)
    ensures On(c, g, NO_HASH) && On(c, g', NO_HASH) && g.hash != g'.hash
    ensures On(c, x, g.hash) && On(c, y, g.hash) && On(c, b, y.hash)
    ensures x.hash != y.hash && g.hash !in {x.hash, y.hash, b.hash} && b.hash !in {x.hash, y.hash}
  {
    var textG, textG', textX, textY, textB;
    Digits();
    g, textG := Make(c, NO_HASH, 1, 1);
    g', textG' := Make(c, NO_HASH, 10, 2);
    x, textX := Make(c, g.hash, 1, 1);
    y, textY := Make(c, g.hash, 10, 2);
    b, textB := Make(c, y.hash, 100, 3);
    FiveApart(c, textG, textG', textX, textY, textB);
  }

  lemma FiveApart(c: Crypto, g: string, g': string, x: string, y: string, b: string)
    requires Telling(c) && |g| == 72 && |g'| == 73 && |x| == 135 && |y| == 136 && |b| == 137
    ensures Sha256(c, g) !in {Sha256(c, g'), Sha256(c, x), Sha256(c, y), Sha256(c, b)}
    ensures Sha256(c, x) !in {Sha256(c, y), Sha256(c, b)} && Sha256(c, y) != Sha256(c, b)
  {
    assert Apart(c, g, g') && Apart(c, g, x) && Apart(c, g, y) && Apart(c, g, b);
    assert Apart(c, x, y) && Apart(c, x, b) && Apart(c, y, b);
  }

  lemma Digits()
    ensures |Decimal(1)| == 1 && |Decimal(10)| == 2 && |Decimal(100)| == 3
  {
  }

  lemma FirstBlocksExist() returns (c: Crypto, x: Block, y: Block)
    ensures Lawful(c) && TwoFirstBlocks(c, x, y, 0)
  {
    ToyTells();
    c := TOY_CRYPTO;
    x, y := FirstBlocks(c);
  }

  lemma FirstBlocks(c: Crypto) returns (x: Block, y: Block)
    requires Telling(c)
    ensures TwoFirstBlocks(c, x, y, 0)
  {
    var u, v, b;
    x, y, u, v, b := SomeBlocks(c);
  }

  lemma OneBlockChain(c: Crypto, g: Block)
    requires On(c, g, NO_HASH)
    ensures var t := Appended(EMPTY, g); WellFormed(t) && Contents(t) == [g] && ValidChain(c, [g])
  {
    ContentsAppended(EMPTY, g);
    assert Contents(EMPTY) == [] && [] + [g] == [g];
    ValidAppend(c, [], g);
  }

  lemma TipBlocks(c: Crypto) returns (t: Table, w: Block, z: Block, b: Block)
    requires Telling(c)
    ensures TwoOnTip(c, t, w, z, 0) && OnBoth(c, t, w, z, b, 0) && b != z && b != w
  {
    var g, g';
    g, g', w, z, b := SomeBlocks(c);
    t := Appended(EMPTY, g);
    OneBlockChain(c, g);
    assert Contents(t) + [z] == [g, z] && Contents(t) + [w] + [z] == [g, w, z];
  }

  lemma TipBlocksExist() returns (c: Crypto, t: Table, w: Block, z: Block, b: Block)
    ensures Lawful(c) && TwoOnTip(c, t, w, z, 0) && OnBoth(c, t, w, z, b, 0) && b != z && b != w
  {
    ToyTells();
    c := TOY_CRYPTO;
    t, w, z, b := TipBlocks(c);
  }
}
