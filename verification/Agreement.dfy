/**
 What the commit protocol guarantees over whole runs beyond exclusivity: ids, quorums, divergence.
 Every interleaving is covered. Where validity is needed the hypothesis is that the run ends with valid
 chains, which it does exactly when no INSERT forks (ValidUnlessForked).
 */
module Agreement {
  import opened Blocks
  import opened Chain
  import opened ChainDB
  import opened TextMessages
  import opened Protocol
  import opened Validity

  // ---------- Ids ----------

  // The step's INSERT is rejected by UNIQUE.
  predicate Rejected(s: System, step: Step) {
    step.n in s.nodes &&
    var node := s.nodes[step.n];
    || (step.InsertOwn? && node.client.Storing? && HasHash(ChainOf(s, step.n), node.client.block.hash))
    || (step.InsertIncoming? && node.server.Inserting? && HasHash(ChainOf(s, step.n), node.server.block.hash))
  }

  // And the engine consumes ids for it.
  predicate Burns(s: System, step: Step) {
    Rejected(s, step) && step.burned > 0
  }

  ghost predicate NothingBurned(c: Crypto, s: System, steps: seq<Step>)
    requires Legal(c, s, steps)
    decreases |steps|
  {
    steps != [] ==> !Burns(s, steps[0]) && NothingBurned(c, Apply(c, s, steps[0]), steps[1..])
  }

  predicate Numbered(s: System) {
    forall n | n in s.nodes :: Consecutive(s.nodes[n].table)
  }

  // The counter is never behind the table, and once ahead of it stays ahead.
  predicate Gap(s: System, n: UserHost)
    requires n in s.nodes
  {
    s.nodes[n].table.lastId > |s.nodes[n].table.rows|
  }

  lemma GapStep(c: Crypto, s: System, step: Step, n: UserHost)
    requires Enabled(c, s, step) && n in s.nodes && Gap(s, n)
    ensures Gap(Apply(c, s, step), n)
  {
  }

  lemma {:induction false} GapRun(c: Crypto, s: System, steps: seq<Step>, n: UserHost)
    requires Legal(c, s, steps) && n in s.nodes && Gap(s, n)
    ensures n in Final(c, s, steps).nodes && Gap(Final(c, s, steps), n)
    decreases |steps|
  {
    if steps != [] {
      GapStep(c, s, steps[0], n);
      GapRun(c, Apply(c, s, steps[0]), steps[1..], n);
    }
  }

  lemma NumberedStep(c: Crypto, s: System, step: Step)
    requires Enabled(c, s, step) && Numbered(s)
    ensures if Burns(s, step) then Gap(Apply(c, s, step), step.n) else Numbered(Apply(c, s, step))
  {
  }

  // Ids that have no gap keep none exactly when the engine consumes none for a rejected INSERT.
  lemma {:induction false} IdsStayConsecutive(c: Crypto, s: System, steps: seq<Step>)
    requires Legal(c, s, steps) && Numbered(s)
    ensures Numbered(Final(c, s, steps)) <==> NothingBurned(c, s, steps)
    decreases |steps|
  {
    if steps != [] {
      var s1 := Apply(c, s, steps[0]);
      NumberedStep(c, s, steps[0]);
      if Burns(s, steps[0]) {
        GapRun(c, s1, steps[1..], steps[0].n);
      } else {
        IdsStayConsecutive(c, s1, steps[1..]);
      }
    }
  }

  // A rejected INSERT found a child of its parent, which the look-up before it had not found (or, on "0",
  // had not looked for): the block itself was stored meanwhile by the node's other thread; or it clashes.
  lemma RejectedHasChild(c: Crypto, s: System, step: Step)
    requires Enabled(c, s, step) && SoundNode(c, s, step.n) && Rejected(s, step)
    ensures var b := if step.InsertOwn? then s.nodes[step.n].client.block else s.nodes[step.n].server.block;
            RunClash(c, s) || HasChild(ChainOf(s, step.n), b.previousHash)
  {
    var node := s.nodes[step.n];
    var b := if step.InsertOwn? then node.client.block else node.server.block;
    assert InFlight(node, b);
    ChildAfterInsert(c, node.table, b, step.burned);
    if x :| x in Contents(node.table) && Clash(c, x, b) {
      assert x in ChainOf(s, step.n) && Known(s, x);
      assert (step.n, b) in s.accepted && Known(s, b);
    }
  }

  ghost predicate NeverRejected(c: Crypto, s: System, steps: seq<Step>)
    requires Legal(c, s, steps)
    decreases |steps|
  {
    steps != [] ==> !Rejected(s, steps[0]) && NeverRejected(c, Apply(c, s, steps[0]), steps[1..])
  }

  // From non-empty valid chains, one insertBlock at a time on each node: no INSERT is ever rejected, so
  // ids have no gaps whatever a rejection would do to the counter; or two blocks of the run clash.
  lemma {:induction false} NothingRejected(c: Crypto, s: System, steps: seq<Step>)
    requires Legal(c, s, steps) && OneAtATime(c, s, steps) && Safe(c, s) && Steady(c, s)
    ensures RunClash(c, Final(c, s, steps)) || NeverRejected(c, s, steps)
    decreases |steps|
  {
    RunGrows(c, s, steps);
    if RunClash(c, s) {
      ClashGrows(c, s, Final(c, s, steps));
    } else if steps != [] {
      var s1 := Apply(c, s, steps[0]);
      UndisturbedInsert(s, steps[0]);
      if Rejected(s, steps[0]) { RejectedHasChild(c, s, steps[0]); }
      if RunClash(c, s1) {
        RunGrows(c, s1, steps[1..]);
        ClashGrows(c, s1, Final(c, s1, steps[1..]));
      } else {
        SafeStep(c, s, steps[0]);
        SteadyStep(c, s, steps[0]);
        NothingRejected(c, s1, steps[1..]);
      }
    }
  }

  lemma {:induction false} RejectionsBurn(c: Crypto, s: System, steps: seq<Step>)
    requires Legal(c, s, steps) && NeverRejected(c, s, steps)
    ensures NothingBurned(c, s, steps)
    decreases |steps|
  {
    if steps != [] { RejectionsBurn(c, Apply(c, s, steps[0]), steps[1..]); }
  }

  lemma NoGapsOneAtATime(c: Crypto, s: System, steps: seq<Step>)
    requires Start(c, s) && AllValid(c, s) && NonEmpty(s) && Numbered(s)
    requires Legal(c, s, steps) && OneAtATime(c, s, steps)
    ensures RunClash(c, Final(c, s, steps)) || Numbered(Final(c, s, steps))
  {
    StartIsSteady(c, s);
    NothingRejected(c, s, steps);
    if NeverRejected(c, s, steps) {
      RejectionsBurn(c, s, steps);
      IdsStayConsecutive(c, s, steps);
    }
  }

  // ---------- Acknowledgements and what they are worth ----------

  predicate Holds(s: System, p: UserHost, b: Block) {
    p in s.nodes && b in ChainOf(s, p)
  }

  lemma HoldsGrows(s: System, s': System)
    requires Grows(s, s')
    ensures forall p, b | Holds(s, p, b) :: Holds(s', p, b)
  {
  }

  // The server answers "{}" although its insertBlock returned false.
  predicate Ignores(s: System, step: Step) {
    Acknowledges(s, step) && (step.LookIncoming? || HasHash(ChainOf(s, step.n), s.nodes[step.n].server.block.hash))
  }

  ghost predicate NothingIgnored(c: Crypto, s: System, steps: seq<Step>)
    requires Legal(c, s, steps)
    decreases |steps|
  {
    steps != [] ==> !Ignores(s, steps[0]) && NothingIgnored(c, Apply(c, s, steps[0]), steps[1..])
  }

  // Whoever acknowledged a block has it, and so has everyone in the audience of a commit.
  ghost predicate Held(s: System) {
    && (forall a | a in s.acks :: Holds(s, a.0, a.1))
    && (forall n | n in s.nodes :: HeldClient(s, s.nodes[n].client))
    && (forall co | co in s.commits :: co.sender in co.audience && forall q | q in co.audience :: Holds(s, q, co.block))
  }

  predicate HeldClient(s: System, client: Client) {
    client.Broadcasting? || client.Storing? ==> forall q | q in client.answered :: Holds(s, q, client.block)
  }

  lemma HeldAcks(c: Crypto, s: System, step: Step)
    requires Enabled(c, s, step) && Held(s) && !Ignores(s, step)
    ensures forall a | a in Apply(c, s, step).acks :: Holds(Apply(c, s, step), a.0, a.1)
  {
    StepGrows(c, s, step);
    HoldsGrows(s, Apply(c, s, step));
    if step.InsertIncoming? { ContentsAppended(s.nodes[step.n].table, s.nodes[step.n].server.block); }
  }

  lemma HeldClients(c: Crypto, s: System, step: Step, n: UserHost)
    requires Enabled(c, s, step) && Held(s) && n in s.nodes
    ensures HeldClient(Apply(c, s, step), Apply(c, s, step).nodes[n].client)
  {
    StepGrows(c, s, step);
    HoldsGrows(s, Apply(c, s, step));
    assert HeldClient(s, s.nodes[n].client);
  }

  lemma SenderHolds(c: Crypto, s: System, step: Step)
    requires Enabled(c, s, step) && Committed(c, s, step) != []
    ensures Holds(Apply(c, s, step), step.n, Attempt(s, step.n).block)
  {
    ContentsAppended(s.nodes[step.n].table, s.nodes[step.n].client.block);
  }

  lemma HeldCommit(c: Crypto, s: System, step: Step, co: Commit, q: UserHost)
    requires Enabled(c, s, step) && Held(s) && co in Apply(c, s, step).commits && q in co.audience
    ensures Holds(Apply(c, s, step), q, co.block)
  {
    StepGrows(c, s, step);
    HoldsGrows(s, Apply(c, s, step));
    if co !in s.commits {
      SenderHolds(c, s, step);
      assert HeldClient(s, s.nodes[step.n].client);
    }
  }

  lemma HeldStep(c: Crypto, s: System, step: Step)
    requires Enabled(c, s, step) && Held(s) && !Ignores(s, step)
    ensures Held(Apply(c, s, step))
  {
    var s' := Apply(c, s, step);
    HeldAcks(c, s, step);
    forall n | n in s'.nodes ensures HeldClient(s', s'.nodes[n].client) { HeldClients(c, s, step, n); }
    forall co | co in s'.commits
      ensures co.sender in co.audience && forall q | q in co.audience :: Holds(s', q, co.block)
    {
      forall q | q in co.audience ensures Holds(s', q, co.block) { HeldCommit(c, s, step, co, q); }
    }
  }

  // In every run in which no server acknowledges a block that its insertBlock refused.
  lemma {:induction false} HeldRun(c: Crypto, s: System, steps: seq<Step>)
    requires Legal(c, s, steps) && NothingIgnored(c, s, steps) && Held(s)
    ensures Held(Final(c, s, steps))
    decreases |steps|
  {
    if steps != [] {
      HeldStep(c, s, steps[0]);
      HeldRun(c, Apply(c, s, steps[0]), steps[1..]);
    }
  }

  // ---------- Anchors ----------

  // Whoever made or accepted a block has its parent.
  ghost predicate Anchored(s: System) {
    forall e | e in s.accepted :: e.0 in s.nodes && Anchor(s, e.0, e.1)
  }

  predicate Anchor(s: System, n: UserHost, b: Block)
    requires n in s.nodes
  {
    b.previousHash == NO_HASH || HasHash(ChainOf(s, n), b.previousHash)
  }

  lemma AnchorStays(s: System, s': System, n: UserHost, b: Block)
    requires Grows(s, s') && n in s.nodes && Anchor(s, n, b)
    ensures Anchor(s', n, b)
  {
    if b.previousHash != NO_HASH { HashStays(ChainOf(s, n), ChainOf(s', n), b.previousHash); }
  }

  lemma NewlyAccepted(c: Crypto, s: System, step: Step, e: (UserHost, Block))
    requires Enabled(c, s, step) && e in Apply(c, s, step).accepted && e !in s.accepted
    ensures e.0 == step.n && e.1.previousHash == TipHash(ChainOf(s, step.n))
  {
  }

  lemma AnchoredStep(c: Crypto, s: System, step: Step)
    requires Enabled(c, s, step) && Anchored(s)
    ensures Anchored(Apply(c, s, step))
  {
    var s' := Apply(c, s, step);
    StepGrows(c, s, step);
    forall e | e in s'.accepted ensures e.0 in s'.nodes && Anchor(s', e.0, e.1) {
      if e !in s.accepted {
        NewlyAccepted(c, s, step, e);
        var bs := ChainOf(s, step.n);
        assert bs != [] ==> bs[|bs| - 1].hash == TipHash(bs);
      }
      AnchorStays(s, s', e.0, e.1);
    }
  }

  lemma {:induction false} AnchoredRun(c: Crypto, s: System, steps: seq<Step>)
    requires Legal(c, s, steps) && Anchored(s)
    ensures Anchored(Final(c, s, steps))
    decreases |steps|
  {
    if steps != [] {
      AnchoredStep(c, s, steps[0]);
      AnchoredRun(c, Apply(c, s, steps[0]), steps[1..]);
    }
  }

  // ---------- Quorum intersection ----------

  ghost predicate SendersHold(s: System) {
    forall co | co in s.commits :: Holds(s, co.sender, co.block)
  }

  lemma SendersHoldStep(c: Crypto, s: System, step: Step)
    requires Enabled(c, s, step) && SendersHold(s)
    ensures SendersHold(Apply(c, s, step))
  {
    StepGrows(c, s, step);
    HoldsGrows(s, Apply(c, s, step));
    if Committed(c, s, step) != [] { SenderHolds(c, s, step); }
  }

  lemma {:induction false} SendersHoldRun(c: Crypto, s: System, steps: seq<Step>)
    requires Legal(c, s, steps) && SendersHold(s)
    ensures SendersHold(Final(c, s, steps))
    decreases |steps|
  {
    if steps != [] {
      SendersHoldStep(c, s, steps[0]);
      SendersHoldRun(c, Apply(c, s, steps[0]), steps[1..]);
    }
  }

  // Two chains hold x and y and agree on every hash up to the lower of the two: one of the blocks
  // is an ancestor of the other, or they are the same.
  ghost predicate OneLine(xs: seq<Block>, x: Block, ys: seq<Block>, y: Block) {
    exists i: nat, j: nat | i < |xs| && j < |ys| && xs[i] == x && ys[j] == y :: AgreeUpTo(xs, ys, i, j)
  }

  predicate AgreeUpTo(xs: seq<Block>, ys: seq<Block>, i: nat, j: nat)
    requires i < |xs| && j < |ys|
  {
    forall k: nat | k <= i && k <= j :: xs[k].hash == ys[k].hash
  }

  // Below a position two chains have the same hashes.
  predicate AgreeBelow(xs: seq<Block>, zs: seq<Block>, i: nat)
    requires i <= |xs| && i <= |zs|
  {
    forall k: nat | k < i :: xs[k].hash == zs[k].hash
  }

  // A block's height is fixed by where its parent stands in any other valid chain.
  lemma ParentFixesHeight(c: Crypto, xs: seq<Block>, zs: seq<Block>, b: Block, i: nat, k: nat)
    requires ValidChain(c, xs) && ValidChain(c, zs) && !ChainsClash(c, xs, zs)
    requires i <= |zs| && ParentAt(zs, i) == b.previousHash && k < |xs| && xs[k] == b
    ensures k == i && AgreeBelow(xs, zs, i)
    ensures HasHash(zs, b.hash) <==> i < |zs| && zs[i].hash == b.hash
  {
    ValidParent(c, xs, k);
    assert BlockOk(c, xs, k);
    if i > 0 {
      ValidParent(c, zs, i - 1);
      HashFixesHistory(c, xs, zs, k - 1, i - 1);
    }
    if HasHash(zs, b.hash) {
      var h: nat :| h < |zs| && zs[h].hash == b.hash;
      HashFixesHistory(c, xs, zs, k, h);
    }
  }

  // What decides whether two blocks on the chains of their holders lie on one line, seen from a third
  // chain that has both parents: whether it has the lower block, or, at one height, whether they are the same.
  predicate LowerIsStored(zs: seq<Block>, i: nat, x: Block, j: nat, y: Block) {
    if i == j then x.hash == y.hash else HasHash(zs, if i < j then x.hash else y.hash)
  }

  lemma OneLineExactly(c: Crypto, xs: seq<Block>, x: Block, ys: seq<Block>, y: Block,
                       zs: seq<Block>, i: nat, j: nat)
    requires ValidChain(c, xs) && ValidChain(c, ys) && ValidChain(c, zs)
    requires !ChainsClash(c, xs, zs) && !ChainsClash(c, ys, zs)
    requires x in xs && y in ys && i <= |zs| && j <= |zs|
    requires ParentAt(zs, i) == x.previousHash && ParentAt(zs, j) == y.previousHash
    ensures OneLine(xs, x, ys, y) <==> LowerIsStored(zs, i, x, j, y)
    ensures i < |xs| && j < |ys| && xs[i] == x && ys[j] == y
    ensures forall k: nat | k < i && k < j :: xs[k].hash == ys[k].hash
  {
    forall k: nat | k < |xs| && xs[k] == x
      ensures k == i && AgreeBelow(xs, zs, i) && (HasHash(zs, x.hash) <==> i < |zs| && zs[i].hash == x.hash)
    {
      ParentFixesHeight(c, xs, zs, x, i, k);
    }
    forall k: nat | k < |ys| && ys[k] == y
      ensures k == j && AgreeBelow(ys, zs, j) && (HasHash(zs, y.hash) <==> j < |zs| && zs[j].hash == y.hash)
    {
      ParentFixesHeight(c, ys, zs, y, j, k);
    }
    assert OneLine(xs, x, ys, y) <==> AgreeUpTo(xs, ys, i, j);
    LowestDecides(xs, x, ys, y, zs, i, j);
  }

  lemma LowestDecides(xs: seq<Block>, x: Block, ys: seq<Block>, y: Block, zs: seq<Block>, i: nat, j: nat)
    requires i < |xs| && j < |ys| && xs[i] == x && ys[j] == y && i <= |zs| && j <= |zs|
    requires AgreeBelow(xs, zs, i) && AgreeBelow(ys, zs, j)
    requires HasHash(zs, x.hash) <==> i < |zs| && zs[i].hash == x.hash
    requires HasHash(zs, y.hash) <==> j < |zs| && zs[j].hash == y.hash
    ensures AgreeUpTo(xs, ys, i, j) <==> LowerIsStored(zs, i, x, j, y)
    ensures forall k: nat | k < i && k < j :: xs[k].hash == ys[k].hash
  {
    var low := if i < j then i else j;
    forall k: nat | k < low ensures xs[k].hash == ys[k].hash {
      assert xs[k].hash == zs[k].hash == ys[k].hash;
    }
    assert AgreeUpTo(xs, ys, i, j) <==> xs[low].hash == ys[low].hash;
    if i < j { assert ys[i].hash == zs[i].hash; }
    if j < i { assert xs[j].hash == zs[j].hash; }
  }

  lemma AnchorPosition(c: Crypto, s: System, n: UserHost, b: Block) returns (i: nat)
    requires n in s.nodes && Anchor(s, n, b)
    ensures i <= |ChainOf(s, n)| && ParentAt(ChainOf(s, n), i) == b.previousHash
  {
    if b.previousHash == NO_HASH {
      i := 0;
    } else {
      var k: nat :| k < |ChainOf(s, n)| && ChainOf(s, n)[k].hash == b.previousHash;
      i := k + 1;
    }
  }

  // In every run that ends with valid chains, two committed blocks whose audiences share a node q stand
  // in their senders' chains right above their parents' heights i and j in q's chain, the two chains
  // agree strictly below the lower of the blocks, and up to it exactly when q has stored it (when both
  // stand at one height: when they are the same); or two blocks of the run clash.
  lemma QuorumIntersectionExactly(c: Crypto, s: System, steps: seq<Step>, x: Commit, y: Commit, q: UserHost)
    returns (i: nat, j: nat)
    requires Start(c, s) && Legal(c, s, steps) && AllValid(c, Final(c, s, steps))
    requires x in Final(c, s, steps).commits && y in Final(c, s, steps).commits
    requires q in x.audience && q in y.audience
    ensures var s' := Final(c, s, steps);
            RunClash(c, s') ||
            (&& x.sender in s'.nodes && y.sender in s'.nodes && q in s'.nodes
             && var xs, ys, zs := ChainOf(s', x.sender), ChainOf(s', y.sender), ChainOf(s', q);
                && i < |xs| && xs[i] == x.block && i <= |zs| && ParentAt(zs, i) == x.block.previousHash
                && j < |ys| && ys[j] == y.block && j <= |zs| && ParentAt(zs, j) == y.block.previousHash
                && (forall k: nat | k < i && k < j :: xs[k].hash == ys[k].hash)
                && (OneLine(xs, x.block, ys, y.block) <==> LowerIsStored(zs, i, x.block, j, y.block)))
  {
    i, j := 0, 0;
    var s' := Final(c, s, steps);
    SendersHoldRun(c, s, steps);
    SafeRun(c, s, steps);
    AnchoredRun(c, s, steps);
    if !RunClash(c, s') {
      assert Holds(s', x.sender, x.block) && Holds(s', y.sender, y.block);
      assert CommitOk(s', x) && CommitOk(s', y);
      assert AckOk(s', q, x.block) && AckOk(s', q, y.block);
      i := AnchorPosition(c, s', q, x.block);
      j := AnchorPosition(c, s', q, y.block);
      if ChainsClash(c, ChainOf(s', x.sender), ChainOf(s', q)) { ChainsClashInRun(c, s', x.sender, q); }
      if ChainsClash(c, ChainOf(s', y.sender), ChainOf(s', q)) { ChainsClashInRun(c, s', y.sender, q); }
      OneLineExactly(c, ChainOf(s', x.sender), x.block, ChainOf(s', y.sender), y.block, ChainOf(s', q), i, j);
    }
  }

  // So where no server acknowledges a block that its insertBlock refused, both blocks lie on the valid
  // chain of every node their audiences share, and the senders' chains run together up to the lower one.
  lemma QuorumIntersection(c: Crypto, s: System, steps: seq<Step>, x: Commit, y: Commit, q: UserHost)
    requires Start(c, s) && Legal(c, s, steps) && NothingIgnored(c, s, steps) && AllValid(c, Final(c, s, steps))
    requires x in Final(c, s, steps).commits && y in Final(c, s, steps).commits
    requires q in x.audience && q in y.audience
    ensures var s' := Final(c, s, steps);
            && Holds(s', q, x.block) && Holds(s', q, y.block)
            && x.sender in s'.nodes && y.sender in s'.nodes
            && (RunClash(c, s') || OneLine(ChainOf(s', x.sender), x.block, ChainOf(s', y.sender), y.block))
  {
    var s' := Final(c, s, steps);
    HeldRun(c, s, steps);
    assert Holds(s', q, x.block) && Holds(s', q, y.block);
    assert Holds(s', x.sender, x.block) && Holds(s', y.sender, y.block);
    var i, j := QuorumIntersectionExactly(c, s, steps, x, y, q);
    if !RunClash(c, s') {
      StoredLower(c, s', q, x.block, y.block, i, j);
    }
  }

  // A chain that holds both blocks has stored the lower one.
  lemma StoredLower(c: Crypto, s: System, q: UserHost, x: Block, y: Block, i: nat, j: nat)
    requires Holds(s, q, x) && Holds(s, q, y) && ValidChain(c, ChainOf(s, q)) && !RunClash(c, s)
    requires i <= |ChainOf(s, q)| && ParentAt(ChainOf(s, q), i) == x.previousHash
    requires j <= |ChainOf(s, q)| && ParentAt(ChainOf(s, q), j) == y.previousHash
    ensures LowerIsStored(ChainOf(s, q), i, x, j, y)
  {
    var zs := ChainOf(s, q);
    if ChainsClash(c, zs, zs) { ChainsClashInRun(c, s, q, q); }
    var k: nat :| k < |zs| && zs[k] == x;
    var h: nat :| h < |zs| && zs[h] == y;
    ParentFixesHeight(c, zs, zs, x, i, k);
    ParentFixesHeight(c, zs, zs, y, j, h);
  }

  // ---------- Divergence is permanent ----------

  predicate Diverged(s: System, p: UserHost, q: UserHost, h: nat) {
    && p in s.nodes && q in s.nodes
    && h < |ChainOf(s, p)| && h < |ChainOf(s, q)|
    && ChainOf(s, p)[h].hash != ChainOf(s, q)[h].hash
  }

  // The parent of b is in m's chain, no lower than the tip was at state s.
  ghost predicate BuiltLate(s: System, s': System, m: UserHost, b: Block) {
    && m in s.nodes && m in s'.nodes
    && exists k: nat | |ChainOf(s, m)| <= k + 1 && k < |ChainOf(s', m)| :: ChainOf(s', m)[k].hash == b.previousHash
  }

  ghost predicate LateAccepts(s: System, s': System) {
    forall e | e in s'.accepted && e !in s.accepted ::
      e.0 in s.nodes && (ChainOf(s, e.0) != [] ==> BuiltLate(s, s', e.0, e.1))
  }

  lemma LateGrows(s: System, s1: System, s2: System, m: UserHost, b: Block)
    requires Grows(s1, s2) && BuiltLate(s, s1, m, b)
    ensures BuiltLate(s, s2, m, b)
  {
    var k: nat :| |ChainOf(s, m)| <= k + 1 && k < |ChainOf(s1, m)| && ChainOf(s1, m)[k].hash == b.previousHash;
    assert ChainOf(s2, m)[k] == ChainOf(s1, m)[k];
  }

  // Blocks are made and validated on the tip, and the tip never moves back.
  lemma BuiltOnTip(s: System, s1: System, m: UserHost, b: Block)
    requires Grows(s, s1) && m in s.nodes && ChainOf(s, m) != [] && b.previousHash == TipHash(ChainOf(s1, m))
    ensures BuiltLate(s, s1, m, b)
  {
    var k := |ChainOf(s1, m)| - 1;
    assert ChainOf(s1, m)[k].hash == b.previousHash;
  }

  lemma LateStep(c: Crypto, s: System, s1: System, step: Step)
    requires Grows(s, s1) && Enabled(c, s1, step) && LateAccepts(s, s1)
    ensures LateAccepts(s, Apply(c, s1, step))
  {
    var s2 := Apply(c, s1, step);
    StepGrows(c, s1, step);
    forall e | e in s2.accepted && e !in s.accepted
      ensures e.0 in s.nodes && (ChainOf(s, e.0) != [] ==> BuiltLate(s, s2, e.0, e.1))
    {
      if e !in s1.accepted { NewlyAccepted(c, s1, step, e); }
      if ChainOf(s, e.0) != [] {
        if e !in s1.accepted { BuiltOnTip(s, s1, e.0, e.1); }
        LateGrows(s, s1, s2, e.0, e.1);
      }
    }
  }

  lemma {:induction false} LateRun(c: Crypto, s: System, s1: System, steps: seq<Step>)
    requires Grows(s, s1) && LateAccepts(s, s1) && Legal(c, s1, steps)
    ensures LateAccepts(s, Final(c, s1, steps))
    decreases |steps|
  {
    if steps != [] {
      LateStep(c, s, s1, steps[0]);
      StepGrows(c, s1, steps[0]);
      LateRun(c, s, Apply(c, s1, steps[0]), steps[1..]);
    }
  }

  // A block p takes after the divergence has its parent at or above the height where the chains differ,
  // so q, which would need the same parent, does not have it.
  lemma LateForOne(c: Crypto, s: System, s': System, p: UserHost, q: UserHost, h: nat, b: Block)
    requires AllValid(c, s') && Grows(s, s') && Diverged(s, p, q, h) && Diverged(s', p, q, h)
    requires BuiltLate(s, s', p, b) && Anchor(s', q, b)
    ensures RunClash(c, s')
  {
    var xs, ys := ChainOf(s', p), ChainOf(s', q);
    var i: nat :| |ChainOf(s, p)| <= i + 1 && i < |xs| && xs[i].hash == b.previousHash;
    ValidParent(c, xs, i);
    var j: nat :| j < |ys| && ys[j].hash == b.previousHash;
    HashFixesHistory(c, xs, ys, i, j);
    assert h <= i && xs[h].hash != ys[h].hash;
    ChainsClashInRun(c, s', p, q);
  }

  lemma DivergedGrows(s: System, s': System, p: UserHost, q: UserHost, h: nat)
    requires Grows(s, s') && Diverged(s, p, q, h)
    ensures Diverged(s', p, q, h)
  {
  }

  lemma NoNewAgreement(c: Crypto, s: System, steps: seq<Step>, p: UserHost, q: UserHost, h: nat, b: Block)
    requires Anchored(s) && Legal(c, s, steps) && Diverged(s, p, q, h) && AllValid(c, Final(c, s, steps))
    requires !((p, b) in s.accepted && (q, b) in s.accepted)
    ensures var s' := Final(c, s, steps);
            RunClash(c, s') || !((p, b) in s'.accepted && (q, b) in s'.accepted)
  {
    var s' := Final(c, s, steps);
    RunGrows(c, s, steps);
    DivergedGrows(s, s', p, q, h);
    LateRun(c, s, s, steps);
    AnchoredRun(c, s, steps);
    if (p, b) in s'.accepted && (q, b) in s'.accepted {
      if (p, b) !in s.accepted {
        assert BuiltLate(s, s', p, b);
        LateForOne(c, s, s', p, q, h, b);
      } else {
        assert BuiltLate(s, s', q, b);
        assert Diverged(s, q, p, h) && Diverged(s', q, p, h);
        LateForOne(c, s, s', q, p, h, b);
      }
    }
  }

  // Once two nodes' hashes differ at a height they differ there for ever, and in every run that ends with
  // valid chains the blocks both have made or accepted stay the ones they had in common then: no block
  // is ever taken by both again.
  lemma DivergenceIsPermanent(c: Crypto, s0: System, before: seq<Step>, after: seq<Step>,
                              p: UserHost, q: UserHost, h: nat, b: Block)
    requires Start(c, s0) && Legal(c, s0, before)
    requires Legal(c, Final(c, s0, before), after) && Diverged(Final(c, s0, before), p, q, h)
    ensures var s := Final(c, s0, before); var s' := Final(c, s, after);
            && Diverged(s', p, q, h)
            && (RunClash(c, s') || !AllValid(c, s') ||
                ((p, b) in s'.accepted && (q, b) in s'.accepted <==> (p, b) in s.accepted && (q, b) in s.accepted))
  {
    var s := Final(c, s0, before);
    AnchoredRun(c, s0, before);
    RunGrows(c, s, after);
    DivergedGrows(s, Final(c, s, after), p, q, h);
    if !((p, b) in s.accepted && (q, b) in s.accepted) && AllValid(c, Final(c, s, after)) {
      NoNewAgreement(c, s, after, p, q, h, b);
    }
  }

  lemma AudienceAccepted(c: Crypto, s: System, co: Commit, q: UserHost)
    requires Safe(c, s) && co in s.commits && q in co.audience
    ensures (q, co.block) in s.accepted
  {
    assert CommitOk(s, co);
    assert AckOk(s, q, co.block);
  }

  // So a send whose audience is to hold both never commits after the divergence, unless both had taken
  // its block before, also when one of them made or acknowledged it before.
  lemma DivergedAudienceAborts(c: Crypto, s0: System, before: seq<Step>, after: seq<Step>,
                               p: UserHost, q: UserHost, h: nat, co: Commit)
    requires Start(c, s0) && Legal(c, s0, before)
    requires Legal(c, Final(c, s0, before), after) && Diverged(Final(c, s0, before), p, q, h)
    requires AllValid(c, Final(c, Final(c, s0, before), after))
    requires p in co.audience && q in co.audience
    ensures var s := Final(c, s0, before); var s' := Final(c, s, after);
            RunClash(c, s') || co !in s'.commits || ((p, co.block) in s.accepted && (q, co.block) in s.accepted)
  {
    var s' := Final(c, Final(c, s0, before), after);
    SafeAcross(c, s0, before, after);
    DivergenceIsPermanent(c, s0, before, after, p, q, h, co.block);
    if !RunClash(c, s') && co in s'.commits {
      AudienceAccepted(c, s', co, p);
      AudienceAccepted(c, s', co, q);
    }
  }

  lemma SafeAcross(c: Crypto, s0: System, before: seq<Step>, after: seq<Step>)
    requires Start(c, s0) && Legal(c, s0, before) && Legal(c, Final(c, s0, before), after)
    ensures var s' := Final(c, Final(c, s0, before), after); RunClash(c, s') || Safe(c, s')
  {
    var s := Final(c, s0, before);
    SafeRun(c, s0, before);
    if RunClash(c, s) {
      RunGrows(c, s, after);
      ClashGrows(c, s, Final(c, s, after));
    } else {
      SafeRun(c, s, after);
    }
  }
}
